/** The share registry of the SMB gateway: bucket instances, the access lists the protocol
    library checks, and the ledger they are rebuilt from. */
module ShareRegistry {
  import opened Wrappers

  datatype Access = Read | ReadWrite

  /** A share definition as the gateway sends it; `users` is what this message grants. */
  datatype ShareUser = ShareUser(name: string, access: string)
  datatype ShareInfo = ShareInfo(name: string, bucketId: nat, bucketName: string, mode: string, status: int,
                                 quota: nat, used: nat, users: seq<ShareUser>)

  datatype Instance = Instance(name: string, bucketId: nat, bucketName: string, mode: string, status: int, quota: nat, used: nat)

  type Acl = map<string, Access>

  /** Registered instances, the library's shares with their access lists, the ledger, and
      how often the library closed a share's connections. */
  datatype State = State(instances: map<string, Instance>, shares: map<string, Acl>, ledger: map<string, Acl>, kicks: map<string, nat>)

  function AccessFromStr(s: string): Access {
    if s == "readonly" then Read else ReadWrite
  }

  /** The white space of Unicode. */
  predicate WhiteSpace(c: char) {
    || '\U{9}' <= c <= '\U{D}' || c == ' ' || c == '\U{85}' || c == '\U{A0}' || c == '\U{1680}' || '\U{2000}' <= c <= '\U{200A}'
    || c == '\U{2028}' || c == '\U{2029}' || c == '\U{202F}' || c == '\U{205F}' || c == '\U{3000}'
  }

  predicate Blank(s: string) {
    forall i | 0 <= i < |s| :: WhiteSpace(s[i])
  }

  predicate SameDefinition(inst: Instance, info: ShareInfo) {
    && inst.name == info.name && inst.bucketId == info.bucketId && inst.bucketName == info.bucketName
    && inst.mode == info.mode && inst.status == info.status
  }

  function NewInstance(info: ShareInfo): Instance {
    Instance(info.name, info.bucketId, info.bucketName, info.mode, info.status, info.quota, info.used)
  }

  function LedgerOf(st: State, name: string): Acl {
    if name in st.ledger then st.ledger[name] else map[]
  }

  /** The access list with the users of a message laid over it, later entries last. */
  function Overlay(acl: Acl, users: seq<ShareUser>): Acl {
    if users == [] then acl
    else Overlay(acl, users[..|users| - 1])[users[|users| - 1].name := AccessFromStr(users[|users| - 1].access)]
  }

  function Kicked(st: State, name: string): map<string, nat> {
    if name in st.shares then st.kicks[name := (if name in st.kicks then st.kicks[name] else 0) + 1] else st.kicks
  }

  predicate Unchanged(st: State, info: ShareInfo) {
    info.name in st.instances && SameDefinition(st.instances[info.name], info)
  }

  // ----- what each operation comes to when the library does not fail -----

  function Upserted(st: State, info: ShareInfo): State {
    if Blank(info.name) then st
    else if Unchanged(st, info) then st.(instances := st.instances[info.name := NewInstance(info)])
    else
      var merged := Overlay(LedgerOf(st, info.name), info.users);
      State(st.instances[info.name := NewInstance(info)], st.shares[info.name := merged], st.ledger[info.name := merged],
            Kicked(st, info.name))
  }

  function Deleted(st: State, name: string): State {
    State(st.instances - {name}, st.shares - {name}, st.ledger - {name}, Kicked(st, name))
  }

  function Granted(st: State, name: string, user: string, access: Access): State {
    if name in st.shares then
      st.(shares := st.shares[name := st.shares[name][user := access]], ledger := st.ledger[name := LedgerOf(st, name)[user := access]])
    else st
  }

  function Revoked(st: State, name: string, user: string): State {
    if name !in st.shares then st
    else
      var left := LedgerOf(st, name) - {user};
      st.(shares := st.shares[name := st.shares[name] - {user}],
          ledger := if left == map[] then st.ledger - {name} else st.ledger[name := left])
  }

  function UpsertEnabled(st: State, infos: seq<ShareInfo>): State {
    if infos == [] then st
    else
      var before := UpsertEnabled(st, infos[..|infos| - 1]);
      if infos[|infos| - 1].status != 1 then before else Upserted(before, infos[|infos| - 1])
  }

  function Enabled(infos: seq<ShareInfo>): set<string> {
    set i | 0 <= i < |infos| && infos[i].status == 1 :: infos[i].name
  }

  /** A snapshot: upsert what is enabled, then delete what was registered before and is
      not enabled now. */
  function Snapshot(st: State, infos: seq<ShareInfo>): State {
    DeletedAll(UpsertEnabled(st, infos), st.instances.Keys - Enabled(infos))
  }

  function DeletedAll(st: State, names: set<string>): State {
    State(st.instances - names, st.shares - names, st.ledger - names,
          map n | n in st.kicks.Keys + (names * st.shares.Keys) ::
            (if n in st.kicks then st.kicks[n] else 0) + if n in names && n in st.shares then 1 else 0)
  }

  // ----- the protocol access lists mirror the ledger -----

  /** Every registered share has a protocol share and the other way round, and the
      protocol's access list is the ledger's; no ledger entry is without a share. */
  ghost predicate Mirror(st: State) {
    && st.instances.Keys == st.shares.Keys && st.ledger.Keys <= st.shares.Keys
    && (forall n | n in st.shares :: st.shares[n] == LedgerOf(st, n))
    && (forall n | n in st.instances :: !Blank(n))
  }

  datatype Event =
    | Upsert(info: ShareInfo)
    | Delete(name: string)
    | Grant(name: string, user: string, access: Access)
    | Revoke(name: string, user: string)
    | Apply(infos: seq<ShareInfo>)

  function Step(st: State, e: Event): State {
    match e
    case Upsert(info) => Upserted(st, info)
    case Delete(name) => Deleted(st, name)
    case Grant(name, user, access) => Granted(st, name, user, access)
    case Revoke(name, user) => Revoked(st, name, user)
    case Apply(infos) => Snapshot(st, infos)
  }

  function Run(st: State, events: seq<Event>): State {
    if events == [] then st else Step(Run(st, events[..|events| - 1]), events[|events| - 1])
  }

  const Empty: State := State(map[], map[], map[], map[])

  lemma UpsertMirrors(st: State, info: ShareInfo)
    requires Mirror(st)
    ensures Mirror(Upserted(st, info))
  {
  }

  lemma {:induction false} UpsertAllMirrors(st: State, infos: seq<ShareInfo>)
    requires Mirror(st)
    ensures Mirror(UpsertEnabled(st, infos))
  {
    hide Mirror;
    if infos != [] {
      var last := |infos| - 1;
      UpsertAllMirrors(st, infos[..last]);
      UpsertMirrors(UpsertEnabled(st, infos[..last]), infos[last]);
    }
  }

  function EnabledNonBlank(infos: seq<ShareInfo>): set<string> {
    set i | 0 <= i < |infos| && infos[i].status == 1 && !Blank(infos[i].name) :: infos[i].name
  }

  lemma {:induction false} UpsertAllKeys(st: State, infos: seq<ShareInfo>)
    ensures UpsertEnabled(st, infos).instances.Keys == st.instances.Keys + EnabledNonBlank(infos)
  {
    if infos != [] {
      var last := |infos| - 1;
      UpsertAllKeys(st, infos[..last]);
      EnabledNames(infos, last);
    }
  }

  lemma EnabledNames(infos: seq<ShareInfo>, last: nat)
    requires last + 1 == |infos|
    ensures EnabledNonBlank(infos)
            == EnabledNonBlank(infos[..last]) + if infos[last].status == 1 && !Blank(infos[last].name) then {infos[last].name} else {}
  {
    forall i | 0 <= i < last ensures infos[i] == infos[..last][i] {
    }
    var all := EnabledNonBlank(infos);
    var some := EnabledNonBlank(infos[..last]);
    forall n | n in some ensures n in all {
      var i :| 0 <= i < |infos[..last]| && infos[..last][i].status == 1 && !Blank(infos[..last][i].name) && infos[..last][i].name == n;
      assert infos[i].name == n;
    }
    forall n | n in all ensures n in some || (n == infos[last].name && infos[last].status == 1 && !Blank(n)) {
      var i :| 0 <= i < |infos| && infos[i].status == 1 && !Blank(infos[i].name) && infos[i].name == n;
      if i < last {
        assert infos[..last][i].name == n;
      }
    }
  }

  lemma StepMirrors(st: State, e: Event)
    requires Mirror(st)
    ensures Mirror(Step(st, e))
  {
    hide Mirror, Snapshot, Upserted;
    match e {
      case Upsert(info) => UpsertMirrors(st, info);
      case Apply(infos) => SnapshotMirrors(st, infos);
      case Delete(name) => DeleteMirrors(st, name);
      case Grant(name, user, access) => GrantMirrors(st, name, user, access);
      case Revoke(name, user) => RevokeMirrors(st, name, user);
    }
  }

  lemma DeleteMirrors(st: State, name: string)
    requires Mirror(st)
    ensures Mirror(Deleted(st, name))
  {
  }

  lemma GrantMirrors(st: State, name: string, user: string, access: Access)
    requires Mirror(st)
    ensures Mirror(Granted(st, name, user, access))
  {
  }

  lemma RevokeMirrors(st: State, name: string, user: string)
    requires Mirror(st)
    ensures Mirror(Revoked(st, name, user))
  {
  }

  lemma SnapshotMirrors(st: State, infos: seq<ShareInfo>)
    requires Mirror(st)
    ensures Mirror(Snapshot(st, infos))
  {
    UpsertAllMirrors(st, infos);
    DeletedAllMirrors(UpsertEnabled(st, infos), st.instances.Keys - Enabled(infos));
  }

  lemma DeletedAllMirrors(st: State, names: set<string>)
    requires Mirror(st)
    ensures Mirror(DeletedAll(st, names))
  {
  }

  /** In every run the protocol access lists and the ledger agree. */
  lemma {:induction false} RunMirrors(events: seq<Event>)
    ensures Mirror(Run(Empty, events))
  {
    if events != [] {
      RunMirrors(events[..|events| - 1]);
      StepMirrors(Run(Empty, events[..|events| - 1]), events[|events| - 1]);
    }
  }

  /** A snapshot leaves exactly its enabled shares registered. */
  lemma SnapshotLeavesEnabled(st: State, infos: seq<ShareInfo>)
    requires Mirror(st)
    ensures forall n :: n in Snapshot(st, infos).instances <==>
              !Blank(n) && exists i :: 0 <= i < |infos| && infos[i].status == 1 && infos[i].name == n
    ensures Snapshot(st, infos).shares.Keys == Snapshot(st, infos).instances.Keys
  {
    UpsertAllKeys(st, infos);
    SnapshotMirrors(st, infos);
    forall n ensures n in Snapshot(st, infos).instances <==>
                       !Blank(n) && exists i :: 0 <= i < |infos| && infos[i].status == 1 && infos[i].name == n
    {
      assert n in EnabledNonBlank(infos) ==> n in Enabled(infos);
    }
  }

  // ----- whose connections are closed -----

  /** What an upsert of a name with a visible letter does, said of the message's fields: the registered instance has
      them all, no other instance changes, and the library closes the share's connections
      once if the share is there with another bucket, name, mode or status, and else not. */
  lemma UpsertMeans(st: State, info: ShareInfo)
    requires Mirror(st) && exists i :: 0 <= i < |info.name| && '!' <= info.name[i] <= '~'
    ensures var after := Upserted(st, info);
            && info.name in after.instances && after.instances - {info.name} == st.instances - {info.name}
            && var inst := after.instances[info.name];
            && inst.name == info.name && inst.bucketId == info.bucketId && inst.bucketName == info.bucketName
            && inst.mode == info.mode && inst.status == info.status && inst.quota == info.quota && inst.used == info.used
            && var changed := info.name in st.instances && var was := st.instances[info.name];
                 was.name != info.name || was.bucketId != info.bucketId || was.bucketName != info.bucketName
                 || was.mode != info.mode || was.status != info.status;
            Kicks(after, info.name) == Kicks(st, info.name) + if changed then 1 else 0
  {
    var i :| 0 <= i < |info.name| && '!' <= info.name[i] <= '~';
    assert !WhiteSpace(info.name[i]);
    assert !Blank(info.name);
    assert Upserted(st, info).instances == st.instances[info.name := NewInstance(info)];
  }

  /** How often the library has closed the share's connections. */
  function Kicks(st: State, name: string): nat {
    if name in st.kicks then st.kicks[name] else 0
  }

  /** The upsert rebuilds a share that is registered. */
  predicate Rebuilds(st: State, info: ShareInfo, name: string) {
    info.name == name && !Blank(name) && !Unchanged(st, info) && name in st.shares
  }

  predicate RebuiltBy(st: State, infos: seq<ShareInfo>, name: string) {
    exists k :: 0 <= k < |infos| && infos[k].status == 1 && Rebuilds(UpsertEnabled(st, infos[..k]), infos[k], name)
  }

  /** The event closes the share's connections: a changed upsert, a delete, or a snapshot
      that changes or drops it. */
  predicate ClosesConnections(st: State, e: Event, name: string) {
    match e
    case Upsert(info) => Rebuilds(st, info, name)
    case Delete(n) => n == name && name in st.shares
    case Apply(infos) => RebuiltBy(st, infos, name) || (name in st.shares && name !in Enabled(infos))
    case _ => false
  }

  lemma UpsertKicks(st: State, info: ShareInfo, name: string)
    ensures Kicks(Upserted(st, info), name) == Kicks(st, name) + if Rebuilds(st, info, name) then 1 else 0
  {
  }

  lemma {:induction false} UpsertAllKicks(st: State, infos: seq<ShareInfo>, name: string)
    ensures Kicks(UpsertEnabled(st, infos), name) >= Kicks(st, name)
    ensures Kicks(UpsertEnabled(st, infos), name) > Kicks(st, name) <==> RebuiltBy(st, infos, name)
  {
    hide Upserted, Kicks, Rebuilds;
    if infos != [] {
      var last := |infos| - 1;
      UpsertAllKicks(st, infos[..last], name);
      UpsertKicks(UpsertEnabled(st, infos[..last]), infos[last], name);
      RebuiltByMore(st, infos, last, name);
      hide RebuiltBy;
    }
  }

  lemma RebuiltByMore(st: State, infos: seq<ShareInfo>, last: nat, name: string)
    requires |infos| == last + 1
    ensures RebuiltBy(st, infos, name)
            <==> RebuiltBy(st, infos[..last], name) || (infos[last].status == 1 && Rebuilds(UpsertEnabled(st, infos[..last]), infos[last], name))
  {
    hide UpsertEnabled, Rebuilds;
    var before := infos[..last];
    forall k | 0 <= k < last ensures infos[..k] == before[..k] && infos[k] == before[k] {
    }
    if k :| 0 <= k < last && before[k].status == 1 && Rebuilds(UpsertEnabled(st, before[..k]), before[k], name) {
      assert Rebuilds(UpsertEnabled(st, infos[..k]), infos[k], name);
    }
    if k :| 0 <= k < |infos| && infos[k].status == 1 && Rebuilds(UpsertEnabled(st, infos[..k]), infos[k], name) {
      assert k < last ==> Rebuilds(UpsertEnabled(st, before[..k]), before[k], name);
    }
  }

  lemma {:induction false} UpsertAllShares(st: State, infos: seq<ShareInfo>, name: string)
    requires name !in Enabled(infos)
    ensures name in UpsertEnabled(st, infos).shares <==> name in st.shares
  {
    if infos != [] {
      var last := |infos| - 1;
      forall k | 0 <= k < last && infos[..last][k].status == 1 ensures infos[..last][k].name in Enabled(infos) {
        assert infos[k].name in Enabled(infos);
      }
      UpsertAllShares(st, infos[..last], name);
      assert infos[last].status == 1 ==> infos[last].name in Enabled(infos);
    }
  }

  /** Exactly these events close a share's connections, whatever users they name. */
  lemma KickedExactly(st: State, e: Event, name: string)
    requires Mirror(st)
    ensures Kicks(Step(st, e), name) >= Kicks(st, name)
    ensures Kicks(Step(st, e), name) > Kicks(st, name) <==> ClosesConnections(st, e, name)
  {
    match e {
      case Apply(infos) =>
        hide RebuiltBy, UpsertEnabled;
        UpsertAllKicks(st, infos, name);
        if name !in Enabled(infos) {
          UpsertAllShares(st, infos, name);
        }
      case _ =>
        hide Snapshot;
    }
  }

  /** Two registrations of one definition; quota and used space may differ. */
  predicate SameShare(a: Instance, b: Instance) {
    a.(quota := b.quota, used := b.used) == b
  }

  /** The event says nothing new about the share and does not drop it. */
  predicate LeavesDefinition(e: Event, share: Instance) {
    match e
    case Upsert(info) => info.name == share.name ==> SameDefinition(share, info)
    case Delete(n) => n != share.name
    case Apply(infos) =>
      && share.name in Enabled(infos)
      && forall k | 0 <= k < |infos| && infos[k].status == 1 && infos[k].name == share.name :: SameDefinition(share, infos[k])
    case _ => true
  }

  ghost predicate Registered(st: State, share: Instance) {
    share.name in st.instances && SameShare(st.instances[share.name], share)
  }

  lemma UpsertKeepsShare(st: State, info: ShareInfo, share: Instance)
    requires Registered(st, share) && (info.name == share.name ==> SameDefinition(share, info))
    ensures Registered(Upserted(st, info), share) && !Rebuilds(st, info, share.name)
  {
  }

  lemma {:induction false} UpsertAllKeepsShare(st: State, infos: seq<ShareInfo>, share: Instance)
    requires Registered(st, share)
    requires forall k | 0 <= k < |infos| && infos[k].status == 1 && infos[k].name == share.name :: SameDefinition(share, infos[k])
    ensures Registered(UpsertEnabled(st, infos), share)
  {
    if infos != [] {
      var last := |infos| - 1;
      UpsertAllKeepsShare(st, infos[..last], share);
      if infos[last].status == 1 {
        UpsertKeepsShare(UpsertEnabled(st, infos[..last]), infos[last], share);
      }
    }
  }

  lemma StepKeepsShare(st: State, e: Event, share: Instance)
    requires Mirror(st) && Registered(st, share) && LeavesDefinition(e, share)
    ensures Registered(Step(st, e), share) && !ClosesConnections(st, e, share.name)
  {
    match e {
      case Upsert(info) => UpsertKeepsShare(st, info, share);
      case Apply(infos) =>
        UpsertAllKeepsShare(st, infos, share);
        forall k | 0 <= k < |infos| && infos[k].status == 1 ensures !Rebuilds(UpsertEnabled(st, infos[..k]), infos[k], share.name) {
          UpsertAllKeepsShare(st, infos[..k], share);
          UpsertKeepsShare(UpsertEnabled(st, infos[..k]), infos[k], share);
        }
      case _ =>
    }
  }

  /** A share whose definition no message changes is never kicked: grants, revocations,
      periodic snapshots and changes of quota or users leave its connections open. */
  lemma {:induction false} UnchangedIsNeverKicked(st: State, events: seq<Event>, share: Instance)
    requires Mirror(st) && Registered(st, share)
    requires forall k | 0 <= k < |events| :: LeavesDefinition(events[k], share)
    ensures Registered(Run(st, events), share) && Kicks(Run(st, events), share.name) == Kicks(st, share.name)
  {
    if events != [] {
      var last := |events| - 1;
      UnchangedIsNeverKicked(st, events[..last], share);
      RunKeepsMirror(st, events[..last]);
      StepKeepsShare(Run(st, events[..last]), events[last], share);
      KickedExactly(Run(st, events[..last]), events[last], share.name);
    }
  }

  // ----- the level of a user -----

  /** The level a list of entries gives the user: that of the last one. */
  function Listed(users: seq<ShareUser>, user: string): Option<Access> {
    if users == [] then None
    else if users[|users| - 1].name == user then Some(AccessFromStr(users[|users| - 1].access))
    else Listed(users[..|users| - 1], user)
  }

  lemma {:induction false} OverlayIsListed(acl: Acl, users: seq<ShareUser>, user: string)
    ensures Entry(Overlay(acl, users), user) == if Listed(users, user).Some? then Listed(users, user) else Entry(acl, user)
  {
    if users != [] {
      OverlayIsListed(acl, users[..|users| - 1], user);
    }
  }

  /** "readonly" gives read access, any other word full access, and of several entries for
      a user the last one counts. */
  lemma {:induction false} LastEntryCounts(users: seq<ShareUser>, k: nat)
    requires k < |users| && forall l | k < l < |users| :: users[l].name != users[k].name
    ensures Listed(users, users[k].name) == Some(if users[k].access == "readonly" then Read else ReadWrite)
  {
    if k < |users| - 1 {
      assert users[..|users| - 1][k] == users[k];
      LastEntryCounts(users[..|users| - 1], k);
    }
  }

  function Level(st: State, name: string, user: string): Option<Access> {
    if name in st.shares then Entry(st.shares[name], user) else None
  }

  /** What one upsert gives the user: nothing on the fast path. */
  function GivenBy(st: State, info: ShareInfo, name: string, user: string): Option<Access> {
    if info.name != name || Blank(name) || Unchanged(st, info) then None else Listed(info.users, user)
  }

  function GivenByAll(st: State, infos: seq<ShareInfo>, name: string, user: string): Option<Access> {
    if infos == [] then None
    else
      var last := |infos| - 1;
      var given := if infos[last].status == 1 then GivenBy(UpsertEnabled(st, infos[..last]), infos[last], name, user) else None;
      if given.Some? then given else GivenByAll(st, infos[..last], name, user)
  }

  /** The level the event gives the user on the share, if it gives one. */
  function Given(st: State, e: Event, name: string, user: string): Option<Access> {
    match e
    case Upsert(info) => GivenBy(st, info, name, user)
    case Grant(n, u, access) => if n == name && u == user && name in st.shares then Some(access) else None
    case Apply(infos) => GivenByAll(st, infos, name, user)
    case _ => None
  }

  lemma UpsertLevel(st: State, info: ShareInfo, name: string, user: string)
    requires Mirror(st)
    ensures Level(Upserted(st, info), name, user)
            == if GivenBy(st, info, name, user).Some? then GivenBy(st, info, name, user) else Level(st, name, user)
  {
    hide Overlay, Listed;
    OverlayIsListed(LedgerOf(st, name), info.users, user);
  }

  lemma {:induction false} UpsertAllLevel(st: State, infos: seq<ShareInfo>, name: string, user: string)
    requires Mirror(st)
    ensures Level(UpsertEnabled(st, infos), name, user)
            == if GivenByAll(st, infos, name, user).Some? then GivenByAll(st, infos, name, user) else Level(st, name, user)
    ensures name !in Enabled(infos) ==> GivenByAll(st, infos, name, user).None?
  {
    hide Mirror, Upserted, GivenBy, Level, Enabled;
    if infos != [] {
      var last := |infos| - 1;
      UpsertAllLevel(st, infos[..last], name, user);
      UpsertAllMirrors(st, infos[..last]);
      UpsertLevel(UpsertEnabled(st, infos[..last]), infos[last], name, user);
      if name !in Enabled(infos) {
        NotEnabledBefore(infos, last, name);
      }
      GivesItsOwn(UpsertEnabled(st, infos[..last]), infos[last], name, user);
    }
  }

  lemma NotEnabledBefore(infos: seq<ShareInfo>, last: nat, name: string)
    requires |infos| == last + 1 && name !in Enabled(infos)
    ensures name !in Enabled(infos[..last]) && !(infos[last].status == 1 && infos[last].name == name)
  {
    forall k | 0 <= k < last && infos[..last][k].status == 1 ensures infos[..last][k].name in Enabled(infos) {
      assert infos[k].name in Enabled(infos);
    }
  }

  lemma GivesItsOwn(st: State, info: ShareInfo, name: string, user: string)
    ensures GivenBy(st, info, name, user).Some? ==> info.name == name
  {
  }

  /** After a rebuild everyone listed has the level of the last entry for them. */
  lemma ListedHaveLevel(st: State, info: ShareInfo)
    requires !Blank(info.name) && !Unchanged(st, info)
    ensures forall k | 0 <= k < |info.users| && (forall l | k < l < |info.users| :: info.users[l].name != info.users[k].name) ::
              Level(Upserted(st, info), info.name, info.users[k].name) == Some(if info.users[k].access == "readonly" then Read else ReadWrite)
  {
    hide Overlay, Listed;
    forall k | 0 <= k < |info.users| && (forall l | k < l < |info.users| :: info.users[l].name != info.users[k].name)
      ensures Level(Upserted(st, info), info.name, info.users[k].name) == Some(if info.users[k].access == "readonly" then Read else ReadWrite)
    {
      LastEntryCounts(info.users, k);
      OverlayIsListed(LedgerOf(st, info.name), info.users, info.users[k].name);
    }
  }

  /** One event: the level is what it gives, nothing if it takes the share or the user
      away, and the old one otherwise. */
  lemma StepLevel(st: State, e: Event, name: string, user: string)
    requires Mirror(st)
    ensures Level(Step(st, e), name, user)
            == if Given(st, e, name, user).Some? then Given(st, e, name, user)
               else if TakesFrom(e, name, user) then None else Level(st, name, user)
  {
    match e {
      case Upsert(info) => UpsertLevel(st, info, name, user);
      case Apply(infos) => SnapshotLevel(st, infos, name, user);
      case _ =>
    }
  }

  lemma SnapshotLevel(st: State, infos: seq<ShareInfo>, name: string, user: string)
    requires Mirror(st)
    ensures Level(Snapshot(st, infos), name, user)
            == if GivenByAll(st, infos, name, user).Some? then GivenByAll(st, infos, name, user)
               else if name !in Enabled(infos) then None else Level(st, name, user)
  {
    hide GivenByAll, UpsertEnabled, Enabled;
    UpsertAllLevel(st, infos, name, user);
    if name !in Enabled(infos) {
      UpsertAllShares(st, infos, name);
    }
  }

  /** Event `k` gives the user this level, and no later one gives another or takes it. */
  ghost predicate LastGiver(events: seq<Event>, k: nat, name: string, user: string, level: Access)
    requires k < |events|
  {
    && Given(Run(Empty, events[..k]), events[k], name, user) == Some(level)
    && forall l | k < l < |events| :: !GivesOrTakes(events, l, name, user)
  }

  ghost predicate GivesOrTakes(events: seq<Event>, l: nat, name: string, user: string)
    requires l < |events|
  {
    Given(Run(Empty, events[..l]), events[l], name, user).Some? || TakesFrom(events[l], name, user)
  }

  lemma LastGiverGoesOn(events: seq<Event>, k: nat, name: string, user: string, level: Access)
    requires k < |events| - 1
    ensures LastGiver(events, k, name, user, level)
            <==> LastGiver(events[..|events| - 1], k, name, user, level) && !GivesOrTakes(events, |events| - 1, name, user)
  {
    hide Given, TakesFrom;
    var before := events[..|events| - 1];
    forall l | 0 <= l < |before| ensures before[..l] == events[..l] && before[l] == events[l] {
    }
    forall l | 0 <= l < |before| ensures GivesOrTakes(before, l, name, user) <==> GivesOrTakes(events, l, name, user) {
    }
  }

  /** In every run a user has a level on a share exactly if some event gave it and none
      since gave another, took it or took the share: the last word counts. */
  lemma {:induction false} LevelIsLastGiven(events: seq<Event>, name: string, user: string, level: Access)
    ensures Level(Run(Empty, events), name, user) == Some(level)
            <==> exists k :: 0 <= k < |events| && LastGiver(events, k, name, user, level)
  {
    hide Given, TakesFrom, Step;
    if events != [] {
      var last := |events| - 1;
      var before := events[..last];
      LevelIsLastGiven(before, name, user, level);
      RunMirrors(before);
      StepLevel(Run(Empty, before), events[last], name, user);
      if k :| 0 <= k < |before| && LastGiver(before, k, name, user, level) && !GivesOrTakes(events, last, name, user) {
        LastGiverGoesOn(events, k, name, user, level);
      }
      if k :| 0 <= k < |events| && LastGiver(events, k, name, user, level) && k < last {
        LastGiverGoesOn(events, k, name, user, level);
      }
      assert Given(Run(Empty, before), events[last], name, user) == Some(level) ==> LastGiver(events, last, name, user, level);
    }
  }

  // ----- who keeps access, who gets it back -----

  predicate Lists(info: ShareInfo, name: string, user: string) {
    info.name == name && exists k :: 0 <= k < |info.users| && info.users[k].name == user
  }

  /** The event gives `user` access to share `name`, or may. */
  predicate GivesTo(e: Event, name: string, user: string) {
    match e
    case Upsert(info) => Lists(info, name, user)
    case Grant(n, u, _) => n == name && u == user
    case Apply(infos) => exists k :: 0 <= k < |infos| && Lists(infos[k], name, user)
    case _ => false
  }

  /** The event takes the share, or the user's access to it, away. */
  predicate TakesFrom(e: Event, name: string, user: string) {
    match e
    case Delete(n) => n == name
    case Revoke(n, u) => n == name && u == user
    case Apply(infos) => name !in Enabled(infos)
    case _ => false
  }

  predicate HasAccess(st: State, name: string, user: string) {
    name in st.shares && user in st.shares[name]
  }

  lemma {:induction false} OverlayOthers(acl: Acl, users: seq<ShareUser>, user: string)
    requires forall k | 0 <= k < |users| :: users[k].name != user
    ensures user in Overlay(acl, users) <==> user in acl
    ensures user in acl ==> Overlay(acl, users)[user] == acl[user]
  {
    if users != [] {
      OverlayOthers(acl, users[..|users| - 1], user);
    }
  }

  lemma UpsertOthers(st: State, info: ShareInfo, name: string, user: string)
    requires Mirror(st) && !Lists(info, name, user)
    ensures HasAccess(Upserted(st, info), name, user) <==> HasAccess(st, name, user)
    ensures HasAccess(st, name, user) ==> Upserted(st, info).shares[name][user] == st.shares[name][user]
  {
    if info.name == name {
      OverlayOthers(LedgerOf(st, name), info.users, user);
    }
  }

  lemma {:induction false} UpsertAllOthers(st: State, infos: seq<ShareInfo>, name: string, user: string)
    requires Mirror(st) && forall k | 0 <= k < |infos| :: !Lists(infos[k], name, user)
    ensures HasAccess(UpsertEnabled(st, infos), name, user) <==> HasAccess(st, name, user)
    ensures HasAccess(st, name, user) ==> UpsertEnabled(st, infos).shares[name][user] == st.shares[name][user]
  {
    if infos != [] {
      var last := |infos| - 1;
      UpsertAllOthers(st, infos[..last], name, user);
      UpsertAllMirrors(st, infos[..last]);
      UpsertOthers(UpsertEnabled(st, infos[..last]), infos[last], name, user);
    }
  }

  lemma StepOthers(st: State, e: Event, name: string, user: string)
    requires Mirror(st) && !GivesTo(e, name, user)
    ensures HasAccess(Step(st, e), name, user) ==> HasAccess(st, name, user)
    ensures HasAccess(st, name, user) && !TakesFrom(e, name, user) ==>
              HasAccess(Step(st, e), name, user) && Step(st, e).shares[name][user] == st.shares[name][user]
  {
    match e {
      case Upsert(info) => UpsertOthers(st, info, name, user);
      case Apply(infos) =>
        UpsertAllOthers(st, infos, name, user);
      case _ =>
    }
  }

  lemma {:induction false} RunKeepsMirror(st: State, events: seq<Event>)
    requires Mirror(st)
    ensures Mirror(Run(st, events))
  {
    if events != [] {
      RunKeepsMirror(st, events[..|events| - 1]);
      StepMirrors(Run(st, events[..|events| - 1]), events[|events| - 1]);
    }
  }

  /** Whoever has no access gets none back, whatever is rebuilt, unless granted or listed
      again. */
  lemma {:induction false} RevokedStaysOut(st: State, events: seq<Event>, name: string, user: string)
    requires Mirror(st) && !HasAccess(st, name, user)
    requires forall k | 0 <= k < |events| :: !GivesTo(events[k], name, user)
    ensures !HasAccess(Run(st, events), name, user)
  {
    if events != [] {
      var last := |events| - 1;
      RevokedStaysOut(st, events[..last], name, user);
      RunKeepsMirror(st, events[..last]);
      StepOthers(Run(st, events[..last]), events[last], name, user);
    }
  }

  /** Whoever has access keeps it, at the same level, through all rebuilds, unless it is
      taken away or granted anew. */
  lemma {:induction false} GrantedStaysIn(st: State, events: seq<Event>, name: string, user: string)
    requires Mirror(st) && HasAccess(st, name, user)
    requires forall k | 0 <= k < |events| :: !GivesTo(events[k], name, user) && !TakesFrom(events[k], name, user)
    ensures HasAccess(Run(st, events), name, user) && Run(st, events).shares[name][user] == st.shares[name][user]
  {
    if events != [] {
      var last := |events| - 1;
      GrantedStaysIn(st, events[..last], name, user);
      RunKeepsMirror(st, events[..last]);
      StepOthers(Run(st, events[..last]), events[last], name, user);
    }
  }

  // ----- the registry and the protocol library at work -----

  /** The library's side: shares with access lists, known users, and the connections it
      closes when a share is removed. */
  class Config {
    var shares: map<string, Acl>
    var known: set<string>
    var kicks: map<string, nat>

    method RemoveShare(name: string) returns (ok: bool)
      modifies this`shares, this`kicks
      ensures ok <==> name in old(shares)
      ensures shares == old(shares) - {name}
      ensures kicks == if ok then old(kicks)[name := (if name in old(kicks) then old(kicks)[name] else 0) + 1] else old(kicks)
    {
      ok := name in shares;
      if ok {
        kicks := kicks[name := (if name in kicks then kicks[name] else 0) + 1];
      }
      shares := shares - {name};
    }

    method AddShare(name: string) returns (ok: bool)
      modifies this`shares
      ensures ok <==> name !in old(shares)
      ensures shares == if ok then old(shares)[name := map[]] else old(shares)
    {
      ok := name !in shares;
      if ok {
        shares := shares[name := map[]];
      }
    }

    method GrantShareUser(name: string, user: string, access: Access) returns (ok: bool)
      modifies this`shares
      ensures ok <==> name in old(shares) && user in known
      ensures shares == if ok then old(shares)[name := old(shares)[name][user := access]] else old(shares)
    {
      ok := name in shares && user in known;
      if ok {
        shares := shares[name := shares[name][user := access]];
      }
    }

    method RevokeShareUser(name: string, user: string) returns (ok: bool)
      modifies this`shares
      ensures ok <==> name in old(shares)
      ensures shares == if ok then old(shares)[name := old(shares)[name] - {user}] else old(shares)
    {
      ok := name in shares;
      if ok {
        shares := shares[name := shares[name] - {user}];
      }
    }
  }

  class Registry {
    var instances: map<string, Instance>
    var ledger: map<string, Acl>

    ghost function Now(config: Config): State
      reads this, config
    {
      State(instances, config.shares, ledger, config.kicks)
    }

    /** Only an enabled instance answers. */
    method Resolve(name: string) returns (found: bool, inst: Instance)
      ensures found <==> name in instances && instances[name].status == 1
      ensures found ==> inst == instances[name]
    {
      found, inst := false, Instance("", 0, "", "", 0, 0, 0);
      if name in instances && instances[name].status == 1 {
        return true, instances[name];
      }
    }

    /** A changed definition is rebuilt: the protocol share anew, everyone of the ledger
        and of the message granted again. It fails exactly when one of them is no user of
        the library; registry and ledger are then as before, but the protocol's list is
        short. */
    method Upsert(info: ShareInfo, config: Config) returns (ok: bool)
      modifies this, config`shares, config`kicks
      ensures Blank(info.name) ==> !ok && Now(config) == old(Now(config))
      ensures !Blank(info.name) ==> (ok <==> old(Unchanged(Now(config), info) || Overlay(LedgerOf(Now(config), info.name), info.users).Keys <= config.known))
      ensures ok ==> Now(config) == Upserted(old(Now(config)), info)
      ensures ok && !old(Unchanged(Now(config), info)) ==>
                forall k | 0 <= k < |info.users| && (forall l | k < l < |info.users| :: info.users[l].name != info.users[k].name) ::
                  Level(Now(config), info.name, info.users[k].name) == Some(if info.users[k].access == "readonly" then Read else ReadWrite)
      ensures !ok && !Blank(info.name) ==>
                && instances == old(instances) && ledger == old(ledger) && info.name in config.shares
                && config.shares[info.name].Keys < Overlay(LedgerOf(old(Now(config)), info.name), info.users).Keys
                && config.shares - {info.name} == old(config.shares) - {info.name} && config.kicks == Kicked(old(Now(config)), info.name)
    {
      if Blank(info.name) {
        return false;
      }
      if info.name in instances && SameDefinition(instances[info.name], info) {
        instances := instances[info.name := NewInstance(info)];
        return true;
      }
      ok := Rebuild(info, config);
      if ok {
        ListedHaveLevel(old(Now(config)), info);
      }
    }

    method Rebuild(info: ShareInfo, config: Config) returns (ok: bool)
      modifies this, config`shares, config`kicks
      ensures var merged := Overlay(LedgerOf(old(Now(config)), info.name), info.users);
              && (ok <==> merged.Keys <= config.known)
              && (ok ==>
                    && instances == old(instances)[info.name := NewInstance(info)] && ledger == old(ledger)[info.name := merged]
                    && config.shares == old(config.shares)[info.name := merged] && config.kicks == Kicked(old(Now(config)), info.name))
              && (!ok ==>
                    && instances == old(instances) && ledger == old(ledger) && info.name in config.shares
                    && config.shares[info.name].Keys < merged.Keys
                    && config.shares - {info.name} == old(config.shares) - {info.name} && config.kicks == Kicked(old(Now(config)), info.name))
    {
      var merged: Acl := if info.name in ledger then ledger[info.name] else map[];
      merged := MergeUsers(merged, info.users);
      ReplaceShare(info.name, config);
      ghost var anew := config.shares;
      ok := GrantAll(info.name, merged, config);
      if ok {
        instances := instances[info.name := NewInstance(info)];
        ledger := ledger[info.name := merged];
        SameButOne(anew, config.shares, info.name);
      }
    }

    method ReplaceShare(name: string, config: Config)
      modifies config`shares, config`kicks
      ensures config.shares == old(config.shares)[name := map[]]
      ensures config.kicks == Kicked(old(Now(config)), name)
    {
      var existed := config.RemoveShare(name);
      var added := config.AddShare(name);
    }

    method MergeUsers(acl: Acl, users: seq<ShareUser>) returns (merged: Acl)
      ensures merged == Overlay(acl, users)
    {
      merged := acl;
      var i := 0;
      while i < |users|
        invariant 0 <= i <= |users| && merged == Overlay(acl, users[..i])
      {
        assert users[..i + 1][..i] == users[..i];
        merged := merged[users[i].name := AccessFromStr(users[i].access)];
        i := i + 1;
      }
      assert users[..|users|] == users;
    }

    /** Grants in no particular order until one fails. */
    method GrantAll(name: string, acl: Acl, config: Config) returns (ok: bool)
      requires name in config.shares && config.shares[name] == map[]
      modifies config`shares
      ensures ok <==> acl.Keys <= config.known
      ensures name in config.shares && config.shares - {name} == old(config.shares) - {name}
      ensures ok ==> config.shares[name] == acl
      ensures !ok ==> config.shares[name].Keys < acl.Keys
    {
      var rest := acl.Keys;
      while rest != {}
        invariant rest <= acl.Keys && name in config.shares
        invariant config.shares - {name} == old(config.shares) - {name}
        invariant config.shares[name] == acl - rest
        invariant acl.Keys - rest <= config.known
      {
        var user :| user in rest;
        ok := config.GrantShareUser(name, user, acl[user]);
        if !ok {
          assert user !in config.shares[name];
          return;
        }
        rest := rest - {user};
      }
      ok := true;
    }

    method Delete(name: string, config: Config)
      modifies this, config`shares, config`kicks
      ensures Now(config) == Deleted(old(Now(config)), name)
    {
      var existed := config.RemoveShare(name);
      instances := instances - {name};
      ledger := ledger - {name};
    }

    /** Written to the protocol first, then to the ledger. */
    method GrantUser(name: string, user: string, access: Access, config: Config) returns (ok: bool)
      modifies this, config`shares
      ensures ok <==> name in old(config.shares) && user in config.known
      ensures Now(config) == if ok then Granted(old(Now(config)), name, user, access) else old(Now(config))
      ensures ok ==> Level(Now(config), name, user) == Some(access) && name in ledger && Entry(ledger[name], user) == Some(access)
    {
      ok := config.GrantShareUser(name, user, access);
      if ok {
        ledger := ledger[name := (if name in ledger then ledger[name] else map[])[user := access]];
      }
    }

    /** An empty ledger entry goes with its last user. */
    method RevokeUser(name: string, user: string, config: Config) returns (ok: bool)
      modifies this, config`shares
      ensures ok <==> name in old(config.shares)
      ensures Now(config) == Revoked(old(Now(config)), name, user)
    {
      ok := config.RevokeShareUser(name, user);
      if ok && name in ledger {
        var users := ledger[name] - {user};
        ledger := if users == map[] then ledger - {name} else ledger[name := users];
      }
      assert ok && name !in old(ledger) ==> ledger == ledger - {name};
    }

    /** The first half of a snapshot; an upsert that fails is passed over and touches its
        own share only. */
    method UpsertAll(infos: seq<ShareInfo>, config: Config) returns (incoming: set<string>)
      modifies this, config`shares, config`kicks
      ensures incoming == Enabled(infos) && instances.Keys <= old(instances).Keys + incoming
      ensures forall n | ShareKnown(old(ledger), infos, config.known, n) ::
                SameFor(Now(config), UpsertEnabled(old(Now(config)), infos), n)
    {
      hide ShareKnown, Enabled, UpsertEnabled, SameFor;
      ghost var start, known := Now(config), config.known;
      incoming := {};
      NothingEnabled();
      NothingUpserted(start);
      var i := 0;
      while i < |infos|
        invariant 0 <= i <= |infos| && incoming == Enabled(infos[..i]) && instances.Keys <= old(instances).Keys + incoming
        invariant config.known == known
        invariant forall n | ShareKnown(start.ledger, infos, known, n) ::
                    SameFor(Now(config), UpsertEnabled(start, infos[..i]), n) && LedgerOf(Now(config), n).Keys <= known
      {
        EnabledMore(infos, i);
        ghost var before := Now(config);
        UpsertMore(start, infos, i);
        if infos[i].status == 1 {
          incoming := incoming + {infos[i].name};
          var ok := Upsert(infos[i], config);
          forall n | ShareKnown(start.ledger, infos, known, n)
            ensures SameFor(Now(config), UpsertEnabled(start, infos[..i + 1]), n) && LedgerOf(Now(config), n).Keys <= known
          {
            UpsertOfOne(start, infos, i, before, Now(config), known, ok, n);
          }
        }
        i := i + 1;
      }
      assert infos[..|infos|] == infos;
    }

    /** A whole snapshot; failed upserts are passed over. Nothing but enabled shares stays
        registered, and every share whose users the library knows ends up as the snapshot
        says, whatever happens to the others. */
    method ApplySnapshot(infos: seq<ShareInfo>, config: Config)
      modifies this, config`shares, config`kicks
      ensures instances.Keys <= Enabled(infos)
      ensures forall n | ShareKnown(old(ledger), infos, config.known, n) :: SameFor(Now(config), Snapshot(old(Now(config)), infos), n)
      ensures old(LedgerKnown(ledger, config.known)) && UsersKnown(infos, config.known) ==> Now(config) == Snapshot(old(Now(config)), infos)
    {
      hide LedgerKnown, UsersKnown, ShareKnown, SameFor, Deleted, DeletedAll, UpsertEnabled, Enabled;
      var current := instances.Keys;
      ghost var before, known := Now(config), config.known;
      var incoming := UpsertAll(infos, config);
      ghost var middle := Now(config);
      var gone := current - incoming;
      var rest := gone;
      DeletedNone(middle);
      assert gone - rest == {};
      while rest != {}
        invariant rest <= gone && Now(config) == DeletedAll(middle, gone - rest) && config.known == known
      {
        var name :| name in rest;
        DeletedOneMore(middle, gone - rest, name);
        assert gone - rest + {name} == gone - (rest - {name});
        Delete(name, config);
        rest := rest - {name};
      }
      assert gone - {} == gone;
      DeletedKeys(middle, gone);
      forall n | ShareKnown(before.ledger, infos, known, n) ensures SameFor(Now(config), Snapshot(before, infos), n) {
        DeletedSame(middle, UpsertEnabled(before, infos), gone, n);
      }
      if LedgerKnown(before.ledger, known) && UsersKnown(infos, known) {
        AllSharesKnown(before.ledger, infos, known);
        SameEverywhere(Now(config), Snapshot(before, infos));
      }
    }
  }

  function Entry<V>(m: map<string, V>, n: string): Option<V> {
    if n in m then Some(m[n]) else None
  }

  /** Two states say the same of share `n`. */
  ghost predicate SameFor(a: State, b: State, n: string) {
    && Entry(a.instances, n) == Entry(b.instances, n) && Entry(a.shares, n) == Entry(b.shares, n)
    && Entry(a.ledger, n) == Entry(b.ledger, n) && Entry(a.kicks, n) == Entry(b.kicks, n)
  }

  lemma SameEverywhere(a: State, b: State)
    requires forall n :: SameFor(a, b, n)
    ensures a == b
  {
    hide SameFor;
    forall n ensures Entry(a.instances, n) == Entry(b.instances, n) && Entry(a.shares, n) == Entry(b.shares, n) {
      SameParts(a, b, n);
    }
    forall n ensures Entry(a.ledger, n) == Entry(b.ledger, n) && Entry(a.kicks, n) == Entry(b.kicks, n) {
      SameParts(a, b, n);
    }
    SameMap(a.instances, b.instances);
    SameMap(a.shares, b.shares);
    SameMap(a.ledger, b.ledger);
    SameMap(a.kicks, b.kicks);
  }

  lemma SameParts(a: State, b: State, n: string)
    requires SameFor(a, b, n)
    ensures Entry(a.instances, n) == Entry(b.instances, n) && Entry(a.shares, n) == Entry(b.shares, n)
    ensures Entry(a.ledger, n) == Entry(b.ledger, n) && Entry(a.kicks, n) == Entry(b.kicks, n)
  {
  }

  lemma SameMap<V>(a: map<string, V>, b: map<string, V>)
    requires forall n :: Entry(a, n) == Entry(b, n)
    ensures a == b
  {
    forall n ensures (n in a <==> n in b) && (n in a ==> a[n] == b[n]) {
      assert Entry(a, n) == Entry(b, n);
    }
  }

  lemma DeletedSame(a: State, b: State, names: set<string>, n: string)
    requires SameFor(a, b, n)
    ensures SameFor(DeletedAll(a, names), DeletedAll(b, names), n)
  {
    assert n in a.shares <==> n in b.shares;
    assert n in a.kicks <==> n in b.kicks;
  }

  /** The library knows everyone with a grant for share `n` and everyone the snapshot
      lists for it. */
  ghost predicate ShareKnown(ledger: map<string, Acl>, infos: seq<ShareInfo>, known: set<string>, n: string) {
    && (n in ledger ==> ledger[n].Keys <= known)
    && forall i, k | 0 <= i < |infos| && infos[i].status == 1 && infos[i].name == n && 0 <= k < |infos[i].users| ::
         infos[i].users[k].name in known
  }

  lemma AllSharesKnown(ledger: map<string, Acl>, infos: seq<ShareInfo>, known: set<string>)
    requires LedgerKnown(ledger, known) && UsersKnown(infos, known)
    ensures forall n :: ShareKnown(ledger, infos, known, n)
  {
  }

  lemma NothingUpserted(st: State)
    ensures UpsertEnabled(st, []) == st
    ensures forall n, infos, known | ShareKnown(st.ledger, infos, known, n) :: SameFor(st, st, n) && LedgerOf(st, n).Keys <= known
  {
  }

  lemma UpsertMore(st: State, infos: seq<ShareInfo>, i: nat)
    requires i < |infos|
    ensures UpsertEnabled(st, infos[..i + 1])
            == if infos[i].status != 1 then UpsertEnabled(st, infos[..i]) else Upserted(UpsertEnabled(st, infos[..i]), infos[i])
  {
    assert infos[..i + 1][..i] == infos[..i];
  }

  /** One upsert of a snapshot, seen from one share: its own succeeds, and another's,
      failed or not, does not touch it. */
  lemma UpsertOfOne(start: State, infos: seq<ShareInfo>, i: nat, before: State, after: State, known: set<string>, ok: bool, n: string)
    requires i < |infos| && infos[i].status == 1
    requires ShareKnown(start.ledger, infos, known, n)
    requires SameFor(before, UpsertEnabled(start, infos[..i]), n) && LedgerOf(before, n).Keys <= known
    requires Blank(infos[i].name) ==> after == before
    requires !Blank(infos[i].name) ==> (ok <==> Unchanged(before, infos[i]) || Overlay(LedgerOf(before, infos[i].name), infos[i].users).Keys <= known)
    requires ok ==> after == Upserted(before, infos[i])
    requires !ok && !Blank(infos[i].name) ==>
               && after.instances == before.instances && after.ledger == before.ledger
               && after.shares - {infos[i].name} == before.shares - {infos[i].name} && after.kicks == Kicked(before, infos[i].name)
    ensures SameFor(after, UpsertEnabled(start, infos[..i + 1]), n) && LedgerOf(after, n).Keys <= known
  {
    UpsertMore(start, infos, i);
    hide UpsertEnabled, Upserted, Overlay, SameDefinition;
    var info, goal := infos[i], UpsertEnabled(start, infos[..i]);
    if Blank(info.name) {
      BlankChangesNothing(goal, info);
    } else if info.name == n {
      OverlayKnown(LedgerOf(before, n), info.users, known);
      UpsertedSame(before, goal, info, n);
    } else {
      UpsertedElsewhere(goal, info, n);
      AfterElsewhere(before, after, info, ok, n);
    }
  }

  lemma BlankChangesNothing(st: State, info: ShareInfo)
    requires Blank(info.name)
    ensures Upserted(st, info) == st
  {
  }

  lemma AfterElsewhere(before: State, after: State, info: ShareInfo, ok: bool, n: string)
    requires info.name != n && (ok ==> after == Upserted(before, info))
    requires !ok ==>
               && after.instances == before.instances && after.ledger == before.ledger
               && after.shares - {info.name} == before.shares - {info.name} && after.kicks == Kicked(before, info.name)
    ensures SameFor(after, before, n) && LedgerOf(after, n) == LedgerOf(before, n)
  {
    hide Upserted;
    if ok {
      UpsertedElsewhere(before, info, n);
    } else {
      assert Entry(after.shares - {info.name}, n) == Entry(before.shares - {info.name}, n);
    }
  }

  lemma UpsertedSame(a: State, b: State, info: ShareInfo, n: string)
    requires SameFor(a, b, n) && info.name == n
    ensures SameFor(Upserted(a, info), Upserted(b, info), n)
    ensures LedgerOf(Upserted(a, info), n) == LedgerOf(a, n) || LedgerOf(Upserted(a, info), n) == Overlay(LedgerOf(a, n), info.users)
  {
    hide Overlay, SameDefinition, NewInstance;
    assert Unchanged(a, info) == Unchanged(b, info) && LedgerOf(a, n) == LedgerOf(b, n);
  }

  lemma UpsertedElsewhere(a: State, info: ShareInfo, n: string)
    requires info.name != n
    ensures SameFor(Upserted(a, info), a, n)
  {
    hide Overlay, SameDefinition, NewInstance;
  }

  // ----- a rebuild that failed -----

  /** The event grants `user` share `name` by itself. */
  predicate GrantsTo(e: Event, name: string, user: string) {
    e.Grant? && e.name == name && e.user == user
  }

  /** Of the share as it was defined before a failed rebuild no message, snapshots and
      upserts that list the user included, gives the user back what the rebuild took from
      the protocol's list: an unchanged definition is not rebuilt. Only a grant to that
      very user does, or another definition. */
  lemma {:induction false} ShortListStaysShort(st: State, events: seq<Event>, share: Instance, user: string)
    requires Registered(st, share) && !HasAccess(st, share.name, user)
    requires forall k | 0 <= k < |events| :: LeavesDefinition(events[k], share) && !GrantsTo(events[k], share.name, user)
    ensures Registered(Run(st, events), share) && !HasAccess(Run(st, events), share.name, user)
  {
    if events != [] {
      var last := |events| - 1;
      ShortListStaysShort(st, events[..last], share, user);
      StepLeavesShort(Run(st, events[..last]), events[last], share, user);
    }
  }

  lemma StepLeavesShort(st: State, e: Event, share: Instance, user: string)
    requires Registered(st, share) && !HasAccess(st, share.name, user)
    requires LeavesDefinition(e, share) && !GrantsTo(e, share.name, user)
    ensures Registered(Step(st, e), share) && !HasAccess(Step(st, e), share.name, user)
  {
    match e {
      case Upsert(info) => UpsertKeepsShare(st, info, share);
      case Apply(infos) => UpsertAllLeavesShort(st, infos, share, user);
      case _ =>
    }
  }

  lemma {:induction false} UpsertAllLeavesShort(st: State, infos: seq<ShareInfo>, share: Instance, user: string)
    requires Registered(st, share) && !HasAccess(st, share.name, user)
    requires forall k | 0 <= k < |infos| && infos[k].status == 1 && infos[k].name == share.name :: SameDefinition(share, infos[k])
    ensures Registered(UpsertEnabled(st, infos), share) && !HasAccess(UpsertEnabled(st, infos), share.name, user)
  {
    if infos != [] {
      var last := |infos| - 1;
      UpsertAllLeavesShort(st, infos[..last], share, user);
      if infos[last].status == 1 {
        UpsertKeepsShare(UpsertEnabled(st, infos[..last]), infos[last], share);
      }
    }
  }

  /** The library knows everyone who has a grant. */
  ghost predicate LedgerKnown(ledger: map<string, Acl>, known: set<string>) {
    forall n | n in ledger :: ledger[n].Keys <= known
  }

  /** The library knows everyone an enabled share of the snapshot lists. */
  ghost predicate UsersKnown(infos: seq<ShareInfo>, known: set<string>) {
    forall i, k | 0 <= i < |infos| && infos[i].status == 1 && 0 <= k < |infos[i].users| :: infos[i].users[k].name in known
  }

  lemma {:induction false} OverlayKnown(acl: Acl, users: seq<ShareUser>, known: set<string>)
    requires acl.Keys <= known && forall k | 0 <= k < |users| :: users[k].name in known
    ensures Overlay(acl, users).Keys <= known
  {
    if users != [] {
      OverlayKnown(acl, users[..|users| - 1], known);
    }
  }

  lemma DeletedKeys(st: State, names: set<string>)
    ensures DeletedAll(st, names).instances.Keys == st.instances.Keys - names
  {
  }

  lemma NothingEnabled()
    ensures Enabled([]) == {}
  {
  }

  lemma SameButOne(a: map<string, Acl>, b: map<string, Acl>, name: string)
    requires a - {name} == b - {name} && name in b
    ensures b == a[name := b[name]]
  {
    forall n | n in a && n != name ensures n in b && b[n] == a[n] {
      assert n in a - {name} && (a - {name})[n] == a[n];
    }
    forall n | n in b && n != name ensures n in a {
      assert n in b - {name};
    }
  }

  lemma DeletedNone(st: State)
    ensures DeletedAll(st, {}) == st
  {
  }

  lemma DeletedOneMore(st: State, names: set<string>, name: string)
    requires name !in names
    ensures Deleted(DeletedAll(st, names), name) == DeletedAll(st, names + {name})
  {
    var a, b := Deleted(DeletedAll(st, names), name), DeletedAll(st, names + {name});
    KicksOneMore(st, names, name);
    assert st.instances - names - {name} == st.instances - (names + {name});
    assert st.shares - names - {name} == st.shares - (names + {name});
    assert st.ledger - names - {name} == st.ledger - (names + {name});
  }

  lemma KicksOneMore(st: State, names: set<string>, name: string)
    requires name !in names
    ensures Kicked(DeletedAll(st, names), name) == DeletedAll(st, names + {name}).kicks
  {
  }

  lemma EnabledMore(infos: seq<ShareInfo>, i: nat)
    requires i < |infos|
    ensures Enabled(infos[..i + 1]) == Enabled(infos[..i]) + if infos[i].status == 1 then {infos[i].name} else {}
  {
    var some, all := infos[..i], infos[..i + 1];
    forall n | n in Enabled(some) ensures n in Enabled(all) {
      var k :| 0 <= k < |some| && some[k].status == 1 && some[k].name == n;
      assert all[k].name == n;
    }
    forall n | n in Enabled(all) ensures n in Enabled(some) || (infos[i].status == 1 && n == infos[i].name) {
      var k :| 0 <= k < |all| && all[k].status == 1 && all[k].name == n;
      if k < i {
        assert some[k].name == n;
      }
    }
    if infos[i].status == 1 {
      assert all[i].name == infos[i].name;
    }
  }
}
