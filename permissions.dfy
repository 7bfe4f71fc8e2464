/** The front end's permission check for one resource type in one
    namespace: the user is asked about, then each of the user's groups, and
    a flag is raised when any of them is granted the matching action. The
    authorizer's answer for a subject and an action (for the fixed resource
    type and namespace) is a parameter; it may throw. */
module Permissions {
  import opened Common

  datatype PermissionAction = Create | View | Update | Delete

  /** ResourcePermissions. */
  datatype Perms = Perms(canCreate: bool, canRead: bool, canUpdate: bool, canDelete: bool)

  /** The authorizer's `can`: granted, refused, or an exception. */
  datatype Answer = Yes | No | Throws

  datatype User = User(id: string, groups: Option<seq<string>>)

  const AllFalse: Perms := Perms(false, false, false, false)

  /** The default list of actions to check. */
  const DefaultActions: seq<PermissionAction> := [Create, View, Update, Delete]

  /** The flag an action sets: view sets canRead, the others their namesake. */
  function Flag(p: Perms, a: PermissionAction): bool
  {
    match a
    case Create => p.canCreate
    case View => p.canRead
    case Update => p.canUpdate
    case Delete => p.canDelete
  }

  /** Raise the flag of one action; the other flags stay. */
  function Raise(p: Perms, a: PermissionAction): (q: Perms)
    ensures Flag(q, a)
    ensures forall b :: b != a ==> Flag(q, b) == Flag(p, b)
  {
    match a
    case Create => p.(canCreate := true)
    case View => p.(canRead := true)
    case Update => p.(canUpdate := true)
    case Delete => p.(canDelete := true)
  }

  /** The authorizer subject for a user and for a group. */
  function UserSubject(id: string): string { "user:" + id }
  function GroupSubject(id: string): string { "group:" + id }

  /** The subjects asked about, in order: the user, then each group, when
      the user has any. */
  function Subjects(user: User): seq<string>
  {
    [UserSubject(user.id)]
      + (if user.groups.Some? && |user.groups.value| > 0 then GroupSubjects(user.groups.value) else [])
  }

  function GroupSubjects(groups: seq<string>): (r: seq<string>)
    ensures |r| == |groups|
    ensures forall i :: 0 <= i < |groups| ==> r[i] == GroupSubject(groups[i])
  {
    if groups == [] then [] else [GroupSubject(groups[0])] + GroupSubjects(groups[1..])
  }

  /** The batch of questions about one subject fails when any of them throws
      (Promise.all rejects). */
  predicate BatchThrows(subject: string, actions: seq<PermissionAction>, ask: (string, PermissionAction) -> Answer)
  {
    exists i :: 0 <= i < |actions| && ask(subject, actions[i]) == Throws
  }

  /** The flags after one subject's answers are mapped onto them. */
  function ApplyBatch(p: Perms, subject: string, actions: seq<PermissionAction>,
                      ask: (string, PermissionAction) -> Answer): Perms
    decreases |actions|
  {
    if actions == [] then p
    else ApplyBatch(if ask(subject, actions[0]) == Yes then Raise(p, actions[0]) else p, subject, actions[1..], ask)
  }

  /** The flags after the subjects are asked in turn; the first batch that
      throws ends the check, keeping the flags raised before it. */
  function Aggregate(p: Perms, subjects: seq<string>, actions: seq<PermissionAction>,
                     ask: (string, PermissionAction) -> Answer): Perms
    decreases |subjects|
  {
    if subjects == [] then p
    else if BatchThrows(subjects[0], actions, ask) then p
    else Aggregate(ApplyBatch(p, subjects[0], actions, ask), subjects[1..], actions, ask)
  }

  /** The subjects asked about: all of them, or up to and including the
      first whose batch throws. */
  function Asked(subjects: seq<string>, actions: seq<PermissionAction>,
                 ask: (string, PermissionAction) -> Answer): seq<string>
  {
    if subjects == [] then []
    else if BatchThrows(subjects[0], actions, ask) then [subjects[0]]
    else [subjects[0]] + Asked(subjects[1..], actions, ask)
  }

  /** One batch: a flag ends up raised iff it was raised before or the
      subject is granted that action and the action is in the list. */
  lemma {:induction false} ApplyBatchFlag(p: Perms, subject: string, actions: seq<PermissionAction>,
                                          ask: (string, PermissionAction) -> Answer, a: PermissionAction)
    ensures Flag(ApplyBatch(p, subject, actions, ask), a) <==> Flag(p, a) || (a in actions && ask(subject, a) == Yes)
    decreases |actions|
  {
    if actions != [] {
      var q := if ask(subject, actions[0]) == Yes then Raise(p, actions[0]) else p;
      ApplyBatchFlag(q, subject, actions[1..], ask, a);
      assert actions == [actions[0]] + actions[1..];
    }
  }

  /** With no authorizer error, a flag is raised iff its action is listed
      and some subject is granted it: the check is an OR over the user and
      the groups. */
  lemma {:induction false} AggregateFlag(p: Perms, subjects: seq<string>, actions: seq<PermissionAction>,
                                         ask: (string, PermissionAction) -> Answer, a: PermissionAction)
    requires forall k :: 0 <= k < |subjects| ==> !BatchThrows(subjects[k], actions, ask)
    ensures Flag(Aggregate(p, subjects, actions, ask), a) <==>
      Flag(p, a) || (a in actions && exists k :: 0 <= k < |subjects| && ask(subjects[k], a) == Yes)
    decreases |subjects|
  {
    if subjects != [] {
      assert !BatchThrows(subjects[0], actions, ask);
      var q := ApplyBatch(p, subjects[0], actions, ask);
      ApplyBatchFlag(p, subjects[0], actions, ask, a);
      var rest := subjects[1..];
      assert forall k :: 0 <= k < |rest| ==> rest[k] == subjects[k + 1];
      AggregateFlag(q, rest, actions, ask, a);
      if a in actions && (exists k :: 0 <= k < |subjects| && ask(subjects[k], a) == Yes) {
        var k :| 0 <= k < |subjects| && ask(subjects[k], a) == Yes;
        if k > 0 { assert ask(rest[k - 1], a) == Yes; }
      }
    }
  }

  /** Flags only go from false to true: a later subject, and an authorizer
      error, never revoke a grant. */
  lemma {:induction false} AggregateMonotone(p: Perms, subjects: seq<string>, actions: seq<PermissionAction>,
                                             ask: (string, PermissionAction) -> Answer, a: PermissionAction)
    requires Flag(p, a)
    ensures Flag(Aggregate(p, subjects, actions, ask), a)
    decreases |subjects|
  {
    if subjects != [] && !BatchThrows(subjects[0], actions, ask) {
      ApplyBatchFlag(p, subjects[0], actions, ask, a);
      AggregateMonotone(ApplyBatch(p, subjects[0], actions, ask), subjects[1..], actions, ask, a);
    }
  }

  /** Only listed actions can raise a flag, errors or not. */
  lemma {:induction false} OnlyListedActions(p: Perms, subjects: seq<string>, actions: seq<PermissionAction>,
                                             ask: (string, PermissionAction) -> Answer, a: PermissionAction)
    requires a !in actions
    ensures Flag(Aggregate(p, subjects, actions, ask), a) == Flag(p, a)
    decreases |subjects|
  {
    if subjects != [] && !BatchThrows(subjects[0], actions, ask) {
      ApplyBatchFlag(p, subjects[0], actions, ask, a);
      OnlyListedActions(ApplyBatch(p, subjects[0], actions, ask), subjects[1..], actions, ask, a);
    }
  }

  /** One subject's batch: every question is put (Promise.all), and only
      when none throws are the answers mapped onto the flags. */
  method RunBatch(p: Perms, subject: string, actions: seq<PermissionAction>,
                  ask: (string, PermissionAction) -> Answer) returns (q: Perms, threw: bool)
    ensures threw <==> BatchThrows(subject, actions, ask)
    ensures q == if threw then p else ApplyBatch(p, subject, actions, ask)
  {
    var results: seq<Answer> := [];
    var i := 0;
    while i < |actions|
      invariant 0 <= i <= |actions|
      invariant |results| == i
      invariant forall j :: 0 <= j < i ==> results[j] == ask(subject, actions[j])
    {
      results := results + [ask(subject, actions[i])];
      i := i + 1;
    }
    i := 0;
    while i < |actions|
      invariant 0 <= i <= |actions|
      invariant forall j :: 0 <= j < i ==> results[j] != Throws
    {
      if results[i] == Throws {
        return p, true;
      }
      i := i + 1;
    }
    threw := false;
    q := p;
    i := 0;
    while i < |actions|
      invariant 0 <= i <= |actions|
      invariant ApplyBatch(p, subject, actions, ask) == ApplyBatch(q, subject, actions[i..], ask)
    {
      assert actions[i..][1..] == actions[i + 1..];
      if results[i] == Yes {
        q := Raise(q, actions[i]);
      }
      i := i + 1;
    }
  }

  /** permissionChecker: all flags start false; the user's answers are
      mapped, then each group's in order when there are groups; the first
      authorizer error is caught and the flags raised so far are returned.
      `asked` lists the subjects asked about, in order. */
  method PermissionChecker(user: User, actions: seq<PermissionAction>,
                           ask: (string, PermissionAction) -> Answer) returns (perms: Perms, asked: seq<string>)
    ensures perms == Aggregate(AllFalse, Subjects(user), actions, ask)
    ensures asked == Asked(Subjects(user), actions, ask)
  {
    var subjects := Subjects(user);
    perms := AllFalse;
    var q, threw := RunBatch(perms, UserSubject(user.id), actions, ask);
    asked := [UserSubject(user.id)];
    if threw {
      return;
    }
    perms := q;
    if user.groups.Some? && |user.groups.value| > 0 {
      var groups := user.groups.value;
      assert subjects[1..] == GroupSubjects(groups);
      var i := 0;
      while i < |groups|
        invariant 0 <= i <= |groups|
        invariant Aggregate(AllFalse, subjects, actions, ask) == Aggregate(perms, subjects[i + 1..], actions, ask)
        invariant Asked(subjects, actions, ask) == asked + Asked(subjects[i + 1..], actions, ask)
      {
        var subject := GroupSubject(groups[i]);
        assert subjects[i + 1..][0] == subject;
        assert subjects[i + 1..][1..] == subjects[i + 2..];
        q, threw := RunBatch(perms, subject, actions, ask);
        asked := asked + [subject];
        if threw {
          return;
        }
        perms := q;
        i := i + 1;
      }
    } else {
      assert subjects == [UserSubject(user.id)];
    }
  }

  /** With no authorizer error, a flag is raised iff its action is listed
      and the user or one of the user's groups is granted it. */
  lemma CheckerIsOr(user: User, actions: seq<PermissionAction>,
                    ask: (string, PermissionAction) -> Answer, a: PermissionAction)
    requires forall k :: 0 <= k < |Subjects(user)| ==> !BatchThrows(Subjects(user)[k], actions, ask)
    ensures Flag(Aggregate(AllFalse, Subjects(user), actions, ask), a) <==>
      a in actions && exists k :: 0 <= k < |Subjects(user)| && ask(Subjects(user)[k], a) == Yes
  {
    AggregateFlag(AllFalse, Subjects(user), actions, ask, a);
  }

  /** Called without an action list, permissionChecker checks all four
      actions: with no authorizer error, every flag is raised iff the user or
      one of the user's groups is granted its action. */
  lemma DefaultActionsDecideEveryFlag(user: User, ask: (string, PermissionAction) -> Answer, a: PermissionAction)
    requires forall k :: 0 <= k < |Subjects(user)| ==> !BatchThrows(Subjects(user)[k], DefaultActions, ask)
    ensures Flag(Aggregate(AllFalse, Subjects(user), DefaultActions, ask), a) <==>
      exists k :: 0 <= k < |Subjects(user)| && ask(Subjects(user)[k], a) == Yes
  {
    assert a in DefaultActions;
    CheckerIsOr(user, DefaultActions, ask, a);
  }

  /** Groups are asked about only when the user has some; the user always is. */
  lemma UserAskedFirst(user: User, actions: seq<PermissionAction>, ask: (string, PermissionAction) -> Answer)
    ensures |Asked(Subjects(user), actions, ask)| >= 1
    ensures Asked(Subjects(user), actions, ask)[0] == UserSubject(user.id)
    ensures (user.groups.None? || user.groups.value == []) ==> Asked(Subjects(user), actions, ask) == [UserSubject(user.id)]
  {
    var s := Subjects(user);
    if user.groups.None? || user.groups.value == [] {
      assert s == [UserSubject(user.id)];
      assert s[1..] == [];
    }
  }
}
