/** The permission store: owners and modes of permissions, and for every holder and scope
    a vector of permissions that is searched by bisection. */
module Permissions {
  import opened Swaps

  type AccountId = nat
  type PermissionId = nat

  datatype Scope = Limited(hash: nat) | Unlimited

  datatype Mode = Permit | Forbid

  datatype PermissionError =
    | PermissionNotFound
    | PermissionNotOwned
    | PermissionAlreadyExists
    | Forbidden

  type Checked = Result<(), PermissionError>

  type Holdings = map<(AccountId, Scope), seq<PermissionId>>

  function HeldIn(permissions: Holdings, who: AccountId, scope: Scope): seq<PermissionId> {
    if (who, scope) in permissions then permissions[(who, scope)] else []
  }

  datatype Store = Store(
    owners: map<(PermissionId, Scope), seq<AccountId>>,
    modes: map<PermissionId, Mode>,
    permissions: Holdings)
  {
    function Owners(id: PermissionId, scope: Scope): seq<AccountId> {
      if (id, scope) in owners then owners[(id, scope)] else []
    }

    function Held(who: AccountId, scope: Scope): seq<PermissionId> {
      HeldIn(permissions, who, scope)
    }

    /** The account has the permission in the scope, or without limits. */
    predicate Has(who: AccountId, id: PermissionId, scope: Scope) {
      id in Held(who, scope) || id in Held(who, Unlimited)
    }
  }

  type Changed = Result<Store, PermissionError>

  // ----- searching

  predicate Sorted(s: seq<PermissionId>) {
    forall i, j :: 0 <= i <= j < |s| ==> s[i] <= s[j]
  }

  datatype Position = Found(index: nat) | Missing(index: nat)

  /** Bisection between `low` and `high`, on whatever vector is given. */
  function Bisect(s: seq<PermissionId>, id: PermissionId, low: nat, high: nat): (r: Position)
    requires low <= high <= |s|
    ensures r.Found? ==> r.index < |s| && s[r.index] == id
    ensures r.Missing? ==> low <= r.index <= high
    decreases high - low
  {
    if low == high then Missing(low)
    else
      var mid := low + (high - low) / 2;
      if s[mid] < id then Bisect(s, id, mid + 1, high)
      else if s[mid] > id then Bisect(s, id, low, mid)
      else Found(mid)
  }

  function BinarySearch(s: seq<PermissionId>, id: PermissionId): (r: Position)
    ensures r.Found? ==> r.index < |s| && s[r.index] == id
    ensures r.Missing? ==> r.index <= |s|
  {
    Bisect(s, id, 0, |s|)
  }

  /** The first `n` permissions come before the given one. */
  predicate Below(s: seq<PermissionId>, id: PermissionId, n: nat)
    requires n <= |s|
  {
    forall i :: 0 <= i < n ==> s[i] < id
  }

  /** The permissions from `n` on come after it. */
  predicate Above(s: seq<PermissionId>, id: PermissionId, n: nat)
    requires n <= |s|
  {
    forall i :: n <= i < |s| ==> id < s[i]
  }

  /** Every permission before the given one has only such before it, and likewise after. */
  predicate Divides(s: seq<PermissionId>, id: PermissionId) {
    forall k :: 0 <= k < |s| ==> (s[k] < id ==> Below(s, id, k + 1)) && (id < s[k] ==> Above(s, id, k))
  }

  lemma SortedDivides(s: seq<PermissionId>, id: PermissionId)
    requires Sorted(s)
    ensures Divides(s, id)
  {
  }

  lemma {:induction false} BisectDivides(s: seq<PermissionId>, id: PermissionId, low: nat, high: nat)
    requires Divides(s, id) && low <= high <= |s|
    requires Below(s, id, low) && Above(s, id, high)
    ensures var r := Bisect(s, id, low, high); r.Missing? ==> Below(s, id, r.index) && Above(s, id, r.index)
    decreases high - low
  {
    if low < high {
      var mid := low + (high - low) / 2;
      if s[mid] < id {
        BisectDivides(s, id, mid + 1, high);
      } else if s[mid] > id {
        BisectDivides(s, id, low, mid);
      }
    }
  }

  /** On a sorted vector the search misses only what is not there, and then points at
      where it belongs. */
  lemma SearchDivides(s: seq<PermissionId>, id: PermissionId)
    requires Sorted(s)
    ensures var r := BinarySearch(s, id); r.Missing? ==> Below(s, id, r.index) && Above(s, id, r.index)
  {
    SortedDivides(s, id);
    BisectDivides(s, id, 0, |s|);
  }

  lemma SearchIsMembership(s: seq<PermissionId>, id: PermissionId)
    requires Sorted(s)
    ensures BinarySearch(s, id).Found? <==> id in s
  {
    SearchDivides(s, id);
  }

  function Inserted(s: seq<PermissionId>, id: PermissionId): seq<PermissionId> {
    match BinarySearch(s, id)
    case Found(_) => s
    case Missing(i) => s[..i] + [id] + s[i..]
  }

  lemma InsertSorted(s: seq<PermissionId>, id: PermissionId, i: nat)
    requires Sorted(s) && i <= |s| && Below(s, id, i) && Above(s, id, i)
    ensures Sorted(s[..i] + [id] + s[i..])
  {
  }

  lemma InsertAdds(s: seq<PermissionId>, id: PermissionId, i: nat)
    requires i <= |s|
    ensures forall x: PermissionId :: x in s[..i] + [id] + s[i..] <==> x in s || x == id
  {
    assert s == s[..i] + s[i..];
  }

  /** Insertion keeps the vector sorted and adds just the one permission. */
  lemma InsertionSorted(s: seq<PermissionId>, id: PermissionId)
    requires Sorted(s)
    ensures Sorted(Inserted(s, id))
    ensures forall x: PermissionId :: x in Inserted(s, id) <==> x in s || x == id
  {
    SearchDivides(s, id);
    match BinarySearch(s, id)
    case Found(_) =>
    case Missing(i) =>
      InsertSorted(s, id, i);
      InsertAdds(s, id, i);
  }

  // ----- the operations

  function HasPermission(st: Store, who: AccountId, scope: Scope, id: PermissionId): bool {
    BinarySearch(st.Held(who, scope), id).Found?
  }

  function CheckPermission(st: Store, who: AccountId, id: PermissionId, scope: Scope): Checked {
    if id !in st.modes then Err(PermissionNotFound)
    else
      var found := HasPermission(st, who, scope, id) || (scope != Unlimited && HasPermission(st, who, Unlimited, id));
      if (st.modes[id] == Permit) == found then Ok(()) else Err(Forbidden)
  }

  function Grant(st: Store, who: AccountId, id: PermissionId, scope: Scope): Store {
    st.(permissions := st.permissions[(who, scope) := Inserted(st.Held(who, scope), id)])
  }

  function Granted(st: Store, who: AccountId, holder: AccountId, id: PermissionId, scope: Scope): Changed {
    var scoped := st.Owners(id, scope);
    var relevant := if who in scoped || scope == Unlimited then scoped else st.Owners(id, Unlimited);
    if who in relevant then Ok(Grant(st, holder, id, scope))
    else if relevant != [] then Err(PermissionNotOwned)
    else Err(PermissionNotFound)
  }

  function FirstPosition(s: seq<AccountId>, who: AccountId): (i: nat)
    requires who in s
    ensures i < |s| && s[i] == who && forall k :: 0 <= k < i ==> s[k] != who
  {
    if s[0] == who then 0 else 1 + FirstPosition(s[1..], who)
  }

  function PermissionTransferred(st: Store, who: AccountId, to: AccountId, id: PermissionId, scope: Scope): Changed {
    var owners := st.Owners(id, scope);
    if id !in st.modes then Err(PermissionNotFound)
    else if who in owners then Ok(st.(owners := st.owners[(id, scope) := owners[FirstPosition(owners, who) := to]]))
    else if owners == [] then Err(PermissionNotFound)
    else Err(PermissionNotOwned)
  }

  function Created(st: Store, owner: AccountId, holder: AccountId, id: PermissionId, scope: Scope, mode: Mode)
    : Changed
  {
    if id in st.modes then Err(PermissionAlreadyExists)
    else
      var owned := st.(modes := st.modes[id := mode],
                       owners := st.owners[(id, scope) := st.Owners(id, scope) + [owner]]);
      Ok(Grant(owned, holder, id, scope))
  }

  function Assigned(st: Store, owner: AccountId, holder: AccountId, id: PermissionId, scope: Scope): Changed {
    if id !in st.modes then Err(PermissionNotFound)
    else
      var owners := st.Owners(id, scope);
      var madeOwner := owner !in owners;
      var owned := if madeOwner then st.(owners := st.owners[(id, scope) := owners + [owner]]) else st;
      var granting := st.modes[id] == Permit;
      var grantedPermission := granting && BinarySearch(st.Held(holder, scope), id).Missing?;
      var done := if granting then Grant(owned, holder, id, scope) else owned;
      if madeOwner || grantedPermission then Ok(done) else Err(PermissionAlreadyExists)
  }

  // ----- genesis

  const TRANSFER: PermissionId := 1

  /** Transferring is forbidden to holders of its permission; everything else is permitted
      to holders only. */
  function InitialModes(): map<PermissionId, Mode> {
    map[TRANSFER := Forbid, 2 := Permit, 3 := Permit, 4 := Permit, 5 := Permit, 6 := Permit, 7 := Permit,
        8 := Permit, 9 := Permit, 10 := Permit, 11 := Permit, 12 := Permit, 13 := Permit]
  }

  function InsertInto(id: PermissionId, s: seq<PermissionId>): seq<PermissionId> {
    if s == [] || id <= s[0] then [id] + s else [s[0]] + InsertInto(id, s[1..])
  }

  function SortIds(s: seq<PermissionId>): seq<PermissionId> {
    if s == [] then [] else InsertInto(s[0], SortIds(s[1..]))
  }

  lemma {:induction false} InsertIntoCounts(id: PermissionId, s: seq<PermissionId>)
    ensures multiset(InsertInto(id, s)) == multiset(s) + multiset{id}
  {
    if s != [] && id > s[0] {
      InsertIntoCounts(id, s[1..]);
      assert s == [s[0]] + s[1..];
    }
  }

  lemma SmallestFirst(first: PermissionId, r: seq<PermissionId>, s: seq<PermissionId>, id: PermissionId)
    requires Sorted(r) && multiset(r) == multiset(s) + multiset{id}
    requires first <= id && forall x: PermissionId :: x in s ==> first <= x
    ensures Sorted([first] + r)
  {
    forall i | 0 <= i < |r|
      ensures first <= r[i]
    {
      assert r[i] in multiset(r);
      if r[i] != id { assert r[i] in s; }
    }
  }

  lemma {:induction false} InsertIntoSorted(id: PermissionId, s: seq<PermissionId>)
    requires Sorted(s)
    ensures Sorted(InsertInto(id, s))
  {
    if s != [] && id > s[0] {
      InsertIntoSorted(id, s[1..]);
      InsertIntoCounts(id, s[1..]);
      SmallestFirst(s[0], InsertInto(id, s[1..]), s[1..], id);
    }
  }

  /** Sorting puts the same permissions in order. */
  lemma {:induction false} SortIdsSorts(s: seq<PermissionId>)
    ensures Sorted(SortIds(s)) && multiset(SortIds(s)) == multiset(s)
  {
    if s != [] {
      SortIdsSorts(s[1..]);
      InsertIntoSorted(s[0], SortIds(s[1..]));
      InsertIntoCounts(s[0], SortIds(s[1..]));
      assert s == [s[0]] + s[1..];
    }
  }

  type OwnerEntry = (PermissionId, Scope, seq<AccountId>)
  type HolderEntry = (AccountId, Scope, seq<PermissionId>)

  function InitialOwners(entries: seq<OwnerEntry>): map<(PermissionId, Scope), seq<AccountId>> {
    if entries == [] then map[]
    else
      var last := entries[|entries| - 1];
      InitialOwners(entries[..|entries| - 1])[(last.0, last.1) := last.2]
  }

  function InitialHolders(entries: seq<HolderEntry>): Holdings {
    if entries == [] then map[]
    else
      var last := entries[|entries| - 1];
      InitialHolders(entries[..|entries| - 1])[(last.0, last.1) := SortIds(last.2)]
  }

  function Genesis(owners: seq<OwnerEntry>, holders: seq<HolderEntry>): Store {
    Store(InitialOwners(owners), InitialModes(), InitialHolders(holders))
  }

  /** Entry `k` is the last one for the holder and scope. */
  predicate LastFor(entries: seq<HolderEntry>, who: AccountId, scope: Scope, k: nat) {
    k < |entries| && entries[k].0 == who && entries[k].1 == scope
    && forall l :: k < l < |entries| ==> entries[l].0 != who || entries[l].1 != scope
  }

  lemma LastForNext(entries: seq<HolderEntry>, who: AccountId, scope: Scope, k: nat)
    requires entries != []
    ensures var before, last := entries[..|entries| - 1], entries[|entries| - 1];
            LastFor(entries, who, scope, k) <==>
              if last.0 == who && last.1 == scope then k == |entries| - 1 else LastFor(before, who, scope, k)
  {
    var before := entries[..|entries| - 1];
    if k < |before| { assert entries[k] == before[k]; }
  }

  /** A vector of the genesis storage is the last configured one for its holder and scope, sorted,
      and empty without one. */
  lemma {:induction false} InitialHeld(entries: seq<HolderEntry>, who: AccountId, scope: Scope)
    ensures var held := HeldIn(InitialHolders(entries), who, scope);
            && Sorted(held)
            && (forall k: nat :: LastFor(entries, who, scope, k) ==> multiset(held) == multiset(entries[k].2))
            && (held == [] || exists k: nat :: LastFor(entries, who, scope, k))
  {
    if entries != [] {
      var before, last := entries[..|entries| - 1], entries[|entries| - 1];
      var held := HeldIn(InitialHolders(entries), who, scope);
      if last.0 == who && last.1 == scope {
        SortIdsSorts(last.2);
        LastForNext(entries, who, scope, |entries| - 1);
      } else {
        InitialHeld(before, who, scope);
        assert held == HeldIn(InitialHolders(before), who, scope);
      }
      forall k: nat
        ensures LastFor(entries, who, scope, k) <==>
                  if last.0 == who && last.1 == scope then k == |entries| - 1 else LastFor(before, who, scope, k)
      {
        LastForNext(entries, who, scope, k);
      }
    }
  }

  /** Entry `k` is the last one for the permission and scope. */
  predicate LastOwnersFor(entries: seq<OwnerEntry>, id: PermissionId, scope: Scope, k: nat) {
    k < |entries| && entries[k].0 == id && entries[k].1 == scope
    && forall l :: k < l < |entries| ==> entries[l].0 != id || entries[l].1 != scope
  }

  lemma LastOwnersForNext(entries: seq<OwnerEntry>, id: PermissionId, scope: Scope, k: nat)
    requires entries != []
    ensures var before, last := entries[..|entries| - 1], entries[|entries| - 1];
            LastOwnersFor(entries, id, scope, k) <==>
              if last.0 == id && last.1 == scope then k == |entries| - 1 else LastOwnersFor(before, id, scope, k)
  {
    var before := entries[..|entries| - 1];
    if k < |before| { assert entries[k] == before[k]; }
  }

  /** The owners in the genesis storage are the last configured ones for the permission and scope,
      and none without them. */
  lemma {:induction false} InitiallyOwned(entries: seq<OwnerEntry>, holders: seq<HolderEntry>, id: PermissionId,
                                          scope: Scope)
    ensures var owners := Genesis(entries, holders).Owners(id, scope);
            && (forall k: nat :: LastOwnersFor(entries, id, scope, k) ==> owners == entries[k].2)
            && (owners == [] || exists k: nat :: LastOwnersFor(entries, id, scope, k))
  {
    if entries != [] {
      var before, last := entries[..|entries| - 1], entries[|entries| - 1];
      if last.0 == id && last.1 == scope {
        LastOwnersForNext(entries, id, scope, |entries| - 1);
      } else {
        InitiallyOwned(before, holders, id, scope);
      }
      forall k: nat
        ensures LastOwnersFor(entries, id, scope, k) <==>
                  if last.0 == id && last.1 == scope then k == |entries| - 1 else LastOwnersFor(before, id, scope, k)
      {
        LastOwnersForNext(entries, id, scope, k);
      }
    }
  }

  /** The modes in the genesis storage: thirteen permissions, of which the first, to transfer, is
      for those who do not hold it. */
  lemma InitialModesAre(owners: seq<OwnerEntry>, holders: seq<HolderEntry>, id: PermissionId)
    ensures var modes := Genesis(owners, holders).modes;
            && (id in modes <==> 1 <= id <= 13)
            && (id in modes ==> (modes[id] == Forbid <==> id == TRANSFER))
  {
  }

  // ----- the pallet's storage, updated in place

  /** Equal but for entries that hold what an absent entry stands for. */
  ghost predicate SameStore(a: Store, b: Store) {
    && a.modes == b.modes
    && (forall id: PermissionId, scope: Scope :: a.Owners(id, scope) == b.Owners(id, scope))
    && forall who: AccountId, scope: Scope :: a.Held(who, scope) == b.Held(who, scope)
  }

  class Pallet {
    var owners: map<(PermissionId, Scope), seq<AccountId>>
    var modes: map<PermissionId, Mode>
    var permissions: Holdings

    function View(): Store
      reads this
    {
      Store(owners, modes, permissions)
    }

    /** Builds the genesis storage, overwriting earlier entries by later ones. */
    constructor (initialOwners: seq<OwnerEntry>, initialPermissions: seq<HolderEntry>)
      ensures View() == Genesis(initialOwners, initialPermissions)
    {
      owners, modes, permissions := map[], InitialModes(), map[];
      new;
      for i := 0 to |initialOwners|
        invariant owners == InitialOwners(initialOwners[..i]) && modes == InitialModes() && permissions == map[]
      {
        var entry := initialOwners[i];
        assert initialOwners[..i + 1][..i] == initialOwners[..i];
        owners := owners[(entry.0, entry.1) := entry.2];
      }
      assert initialOwners[..|initialOwners|] == initialOwners;
      for i := 0 to |initialPermissions|
        invariant owners == InitialOwners(initialOwners) && modes == InitialModes()
        invariant permissions == InitialHolders(initialPermissions[..i])
      {
        var entry := initialPermissions[i];
        assert initialPermissions[..i + 1][..i] == initialPermissions[..i];
        permissions := permissions[(entry.0, entry.1) := SortIds(entry.2)];
      }
      assert initialPermissions[..|initialPermissions|] == initialPermissions;
    }

    method CheckPermissionWithScope(who: AccountId, id: PermissionId, scope: Scope) returns (r: Checked)
      ensures r == CheckPermission(View(), who, id, scope)
    {
      if id !in modes { return Err(PermissionNotFound); }
      var mode := modes[id];
      var permissionFound := HasPermission(View(), who, scope, id);
      if !permissionFound && scope != Unlimited {
        permissionFound := HasPermission(View(), who, Unlimited, id);
      }
      match (mode, permissionFound)
      case (Permit, true) => r := Ok(());
      case (Forbid, false) => r := Ok(());
      case _ => r := Err(Forbidden);
    }

    method Insert(who: AccountId, id: PermissionId, scope: Scope) returns (added: bool)
      modifies this`permissions
      ensures View() == Grant(old(View()), who, id, scope)
      ensures added == BinarySearch(old(View()).Held(who, scope), id).Missing?
    {
      var held := View().Held(who, scope);
      var position := BinarySearch(held, id);
      if position.Missing? {
        held := held[..position.index] + [id] + held[position.index..];
      }
      permissions := permissions[(who, scope) := held];
      added := position.Missing?;
    }

    method GrantPermissionWithScope(who: AccountId, holder: AccountId, id: PermissionId, scope: Scope)
      returns (r: Checked)
      modifies this`permissions
      ensures match Granted(old(View()), who, holder, id, scope)
              case Ok(st) => r == Ok(()) && View() == st
              case Err(e) => r == Err(e) && View() == old(View())
    {
      var permissionFound, ownsPermission;
      var scoped := View().Owners(id, scope);
      if who in scoped {
        permissionFound, ownsPermission := true, true;
      } else if scope != Unlimited {
        var unlimited := View().Owners(id, Unlimited);
        permissionFound, ownsPermission := unlimited != [], who in unlimited;
      } else {
        permissionFound, ownsPermission := scoped != [], false;
      }
      if ownsPermission {
        var _ := Insert(holder, id, scope);
        r := Ok(());
      } else if permissionFound {
        r := Err(PermissionNotOwned);
      } else {
        r := Err(PermissionNotFound);
      }
    }

    method TransferPermission(who: AccountId, to: AccountId, id: PermissionId, scope: Scope) returns (r: Checked)
      modifies this`owners
      ensures match PermissionTransferred(old(View()), who, to, id, scope)
              case Ok(st) => r == Ok(()) && View() == st
              case Err(e) => r == Err(e) && View() == old(View())
    {
      if id !in modes { return Err(PermissionNotFound); }
      var list := View().Owners(id, scope);
      var position := 0;
      while position < |list| && list[position] != who
        invariant position <= |list| && forall k :: 0 <= k < position ==> list[k] != who
      {
        position := position + 1;
      }
      if position == |list| {
        return Err(if list == [] then PermissionNotFound else PermissionNotOwned);
      }
      assert position == FirstPosition(list, who);
      owners := owners[(id, scope) := list[position := to]];
      r := Ok(());
    }

    method CreatePermission(owner: AccountId, holder: AccountId, id: PermissionId, scope: Scope, mode: Mode)
      returns (r: Checked)
      modifies this
      ensures match Created(old(View()), owner, holder, id, scope, mode)
              case Ok(st) => r == Ok(()) && View() == st
              case Err(e) => r == Err(e) && View() == old(View())
    {
      if id in modes { return Err(PermissionAlreadyExists); }
      var list := View().Owners(id, scope);
      modes := modes[id := mode];
      owners := owners[(id, scope) := list + [owner]];
      var _ := Insert(holder, id, scope);
      r := Ok(());
    }

    method AssignPermission(owner: AccountId, holder: AccountId, id: PermissionId, scope: Scope) returns (r: Checked)
      modifies this
      ensures match Assigned(old(View()), owner, holder, id, scope)
              case Ok(st) => r == Ok(()) && View() == st
              case Err(e) => r == Err(e) && SameStore(View(), old(View()))
    {
      if id !in modes { return Err(PermissionNotFound); }
      var list := View().Owners(id, scope);
      var madeOwner := owner !in list;
      if madeOwner {
        owners := owners[(id, scope) := list + [owner]];
      }
      var grantedPermission := false;
      if modes[id] == Permit {
        grantedPermission := Insert(holder, id, scope);
      }
      r := if madeOwner || grantedPermission then Ok(()) else Err(PermissionAlreadyExists);
    }
  }

  // ----- runs

  datatype Step =
    | GrantStep(who: AccountId, holder: AccountId, id: PermissionId, scope: Scope)
    | TransferStep(who: AccountId, to: AccountId, id: PermissionId, scope: Scope)
    | CreateStep(owner: AccountId, holder: AccountId, id: PermissionId, scope: Scope, mode: Mode)
    | AssignStep(owner: AccountId, holder: AccountId, id: PermissionId, scope: Scope)

  function Attempt(st: Store, step: Step): Changed {
    match step
    case GrantStep(who, holder, id, scope) => Granted(st, who, holder, id, scope)
    case TransferStep(who, to, id, scope) => PermissionTransferred(st, who, to, id, scope)
    case CreateStep(owner, holder, id, scope, mode) => Created(st, owner, holder, id, scope, mode)
    case AssignStep(owner, holder, id, scope) => Assigned(st, owner, holder, id, scope)
  }

  function Apply(st: Store, step: Step): Store {
    match Attempt(st, step)
    case Ok(st') => st'
    case Err(_) => st
  }

  function Run(st: Store, steps: seq<Step>): Store
    decreases |steps|
  {
    if steps == [] then st else Run(Apply(st, steps[0]), steps[1..])
  }

  ghost predicate Inv(st: Store) {
    forall who: AccountId, scope: Scope :: Sorted(st.Held(who, scope))
  }

  /** What one step, and so a whole run, can only add to. */
  ghost predicate Grows(st: Store, st': Store) {
    && (forall id: PermissionId :: id in st.modes ==> id in st'.modes && st'.modes[id] == st.modes[id])
    && (forall who: AccountId, scope: Scope, id: PermissionId :: id in st.Held(who, scope) ==>
        id in st'.Held(who, scope))
    && (forall id: PermissionId, scope: Scope :: st.Owners(id, scope) != [] ==> st'.Owners(id, scope) != [])
  }

  lemma GrantKeeps(st: Store, who: AccountId, id: PermissionId, scope: Scope)
    requires Inv(st)
    ensures Inv(Grant(st, who, id, scope)) && Grows(st, Grant(st, who, id, scope))
  {
    InsertionSorted(st.Held(who, scope), id);
    var st' := Grant(st, who, id, scope);
    forall w: AccountId, s: Scope
      ensures Sorted(st'.Held(w, s)) && forall x: PermissionId :: x in st.Held(w, s) ==> x in st'.Held(w, s)
    {
      if w != who || s != scope { assert st'.Held(w, s) == st.Held(w, s); }
    }
  }

  lemma StepKeeps(st: Store, step: Step)
    requires Inv(st)
    ensures Inv(Apply(st, step)) && Grows(st, Apply(st, step))
  {
    match step
    case GrantStep(_, holder, id, scope) => GrantKeeps(st, holder, id, scope);
    case TransferStep(_, _, _, _) =>
      assert forall who: AccountId, s: Scope :: Apply(st, step).Held(who, s) == st.Held(who, s);
    case CreateStep(owner, holder, id, scope, mode) =>
      if id !in st.modes {
        var owned := st.(modes := st.modes[id := mode],
                         owners := st.owners[(id, scope) := st.Owners(id, scope) + [owner]]);
        assert Inv(owned) && Grows(st, owned) by {
          assert forall who: AccountId, s: Scope :: owned.Held(who, s) == st.Held(who, s);
        }
        GrantKeeps(owned, holder, id, scope);
      }
    case AssignStep(owner, holder, id, scope) =>
      if id in st.modes {
        var owned := if owner !in st.Owners(id, scope)
                     then st.(owners := st.owners[(id, scope) := st.Owners(id, scope) + [owner]]) else st;
        assert Inv(owned) && Grows(st, owned) by {
          assert forall who: AccountId, s: Scope :: owned.Held(who, s) == st.Held(who, s);
        }
        GrantKeeps(owned, holder, id, scope);
      }
  }

  lemma {:induction false} RunKeeps(st: Store, steps: seq<Step>)
    requires Inv(st)
    ensures Inv(Run(st, steps)) && Grows(st, Run(st, steps))
    decreases |steps|
  {
    if steps != [] {
      StepKeeps(st, steps[0]);
      RunKeeps(Apply(st, steps[0]), steps[1..]);
    }
  }

  lemma GenesisInv(owners: seq<OwnerEntry>, holders: seq<HolderEntry>)
    ensures Inv(Genesis(owners, holders))
  {
    forall who: AccountId, scope: Scope
      ensures Sorted(Genesis(owners, holders).Held(who, scope))
    {
      InitialHeld(holders, who, scope);
    }
  }

  /** In every reachable store the bisecting check says exactly whether the account has
      the permission, in the scope or without limits. */
  lemma CheckIsMembership(st: Store, steps: seq<Step>, who: AccountId, id: PermissionId, scope: Scope)
    requires Inv(st)
    ensures var now := Run(st, steps);
            CheckPermission(now, who, id, scope) ==
              if id !in now.modes then Err(PermissionNotFound)
              else if (now.modes[id] == Permit) == now.Has(who, id, scope) then Ok(())
              else Err(Forbidden)
  {
    RunKeeps(st, steps);
    SearchIsMembership(Run(st, steps).Held(who, scope), id);
    SearchIsMembership(Run(st, steps).Held(who, Unlimited), id);
  }

  /** Checks are monotone along every run: a passing `Permit` check keeps passing, a
      failing `Forbid` check keeps failing, modes never change, and a permission that has
      an owner never becomes ownerless. */
  lemma ChecksMonotone(st: Store, steps: seq<Step>, who: AccountId, id: PermissionId, scope: Scope)
    requires Inv(st) && id in st.modes
    ensures var now := Run(st, steps);
            && id in now.modes && now.modes[id] == st.modes[id]
            && (st.modes[id] == Permit && CheckPermission(st, who, id, scope).Ok? ==>
                CheckPermission(now, who, id, scope).Ok?)
            && (st.modes[id] == Forbid && CheckPermission(st, who, id, scope).Err? ==>
                CheckPermission(now, who, id, scope).Err?)
            && (st.Owners(id, scope) != [] ==> now.Owners(id, scope) != [])
  {
    RunKeeps(st, steps);
    CheckIsMembership(st, [], who, id, scope);
    CheckIsMembership(st, steps, who, id, scope);
  }

  // ----- who can change what

  /** The signer owns the permission in the scope or without limits. */
  predicate MayGrant(st: Store, who: AccountId, id: PermissionId, scope: Scope) {
    who in st.Owners(id, scope) || who in st.Owners(id, Unlimited)
  }

  /** The step gives the permission to the account: an owner of it, in the scope or
      without limits, grants it; or it is created; or one of mode `Permit` is assigned. */
  predicate Gives(st: Store, step: Step, who: AccountId, id: PermissionId, scope: Scope) {
    match step
    case GrantStep(owner, holder, i, s) =>
      holder == who && i == id && s == scope && MayGrant(st, owner, id, scope)
    case TransferStep(_, _, _, _) => false
    case CreateStep(_, holder, i, s, _) => holder == who && i == id && s == scope && id !in st.modes
    case AssignStep(_, holder, i, s) =>
      holder == who && i == id && s == scope && id in st.modes && st.modes[id] == Permit
  }

  /** Granting changes the holdings alone, and those by the one permission. */
  lemma GrantHeld(st: Store, owned: Store, holder: AccountId, i: PermissionId, s: Scope, who: AccountId,
                  id: PermissionId, scope: Scope)
    requires Inv(st) && owned.permissions == st.permissions
    ensures id in Grant(owned, holder, i, s).Held(who, scope) <==>
              id in st.Held(who, scope) || (holder == who && i == id && s == scope)
  {
    assert owned.Held(holder, s) == st.Held(holder, s);
    InsertionSorted(st.Held(holder, s), i);
  }

  lemma AssignmentGives(st: Store, owner: AccountId, holder: AccountId, i: PermissionId, s: Scope,
                        who: AccountId, id: PermissionId, scope: Scope)
    requires Inv(st)
    ensures var step := AssignStep(owner, holder, i, s);
            id in Apply(st, step).Held(who, scope) <==> id in st.Held(who, scope) || Gives(st, step, who, id, scope)
  {
    var owned := if owner in st.Owners(i, s) then st
                 else st.(owners := st.owners[(i, s) := st.Owners(i, s) + [owner]]);
    GrantHeld(st, owned, holder, i, s, who, id, scope);
    SearchIsMembership(st.Held(holder, s), i);
  }

  /** A step adds a permission to an account exactly when it gives it, and takes none
      away. */
  lemma StepGivesExactly(st: Store, step: Step, who: AccountId, id: PermissionId, scope: Scope)
    requires Inv(st)
    ensures id in Apply(st, step).Held(who, scope) <==> id in st.Held(who, scope) || Gives(st, step, who, id, scope)
  {
    match step
    case GrantStep(_, holder, i, s) => GrantHeld(st, st, holder, i, s, who, id, scope);
    case TransferStep(_, _, _, _) =>
    case CreateStep(owner, holder, i, s, mode) =>
      var owned := st.(modes := st.modes[i := mode], owners := st.owners[(i, s) := st.Owners(i, s) + [owner]]);
      GrantHeld(st, owned, holder, i, s, who, id, scope);
    case AssignStep(owner, holder, i, s) => AssignmentGives(st, owner, holder, i, s, who, id, scope);
  }

  /** An account that comes to hold a permission along a run was given it by a step
      that had the right to, in the store as it then was. */
  lemma {:induction false} HoldersWereGiven(st: Store, steps: seq<Step>, who: AccountId, id: PermissionId, scope: Scope)
    requires Inv(st)
    ensures id in Run(st, steps).Held(who, scope) <==>
              || id in st.Held(who, scope)
              || exists k :: 0 <= k < |steps| && Gives(Run(st, steps[..k]), steps[k], who, id, scope)
    decreases |steps|
  {
    if steps == [] {
    } else {
      var st', rest := Apply(st, steps[0]), steps[1..];
      StepKeeps(st, steps[0]);
      StepGivesExactly(st, steps[0], who, id, scope);
      HoldersWereGiven(st', rest, who, id, scope);
      forall k | 0 <= k < |rest|
        ensures Run(st', rest[..k]) == Run(st, steps[..k + 1]) && rest[k] == steps[k + 1]
      {
        assert steps[..k + 1][0] == steps[0] && steps[..k + 1][1..] == rest[..k];
      }
      assert steps[..0] == [];
      if k :| 0 <= k < |rest| && Gives(Run(st', rest[..k]), rest[k], who, id, scope) {
        assert Gives(Run(st, steps[..k + 1]), steps[k + 1], who, id, scope);
      }
      if k :| 0 <= k < |steps| && Gives(Run(st, steps[..k]), steps[k], who, id, scope) {
        assert k == 0 || Gives(Run(st', rest[..k - 1]), rest[k - 1], who, id, scope);
      }
    }
  }

  lemma ReplacedOne(s: seq<AccountId>, i: nat, x: AccountId)
    requires i < |s|
    ensures multiset(s[i := x]) == multiset(s) - multiset{s[i]} + multiset{x}
  {
    assert s == s[..i] + [s[i]] + s[i + 1..];
    assert s[i := x] == s[..i] + [x] + s[i + 1..];
  }

  /** A transfer replaces one occurrence of the owner who signs it, in its own scope. */
  lemma TransferReplacesOwner(st: Store, who: AccountId, to: AccountId, i: PermissionId, s: Scope, id: PermissionId,
                              scope: Scope)
    ensures var owners, owners' := st.Owners(id, scope), Apply(st, TransferStep(who, to, i, s)).Owners(id, scope);
            if i == id && s == scope && id in st.modes && who in owners
            then multiset(owners') == multiset(owners) - multiset{who} + multiset{to}
            else owners' == owners
  {
    var list := st.Owners(id, scope);
    if i == id && s == scope && id in st.modes && who in list {
      ReplacedOne(list, FirstPosition(list, who), to);
    }
  }

  /** The owner whom a creation or an assignment adds to a permission in a scope. */
  function NewOwner(st: Store, step: Step, id: PermissionId, scope: Scope): seq<AccountId> {
    match step
    case CreateStep(owner, _, i, s, _) => if i == id && s == scope && id !in st.modes then [owner] else []
    case AssignStep(owner, _, i, s) =>
      if i == id && s == scope && id in st.modes && owner !in st.Owners(id, scope) then [owner] else []
    case _ => []
  }

  /** Apart from transfers, a step only adds owners, and only by creation or assignment. */
  lemma OwnersAdded(st: Store, step: Step, id: PermissionId, scope: Scope)
    requires !step.TransferStep?
    ensures Apply(st, step).Owners(id, scope) == st.Owners(id, scope) + NewOwner(st, step, id, scope)
  {
  }

  /** The step makes the account an owner of the permission in the scope: by creating or
      assigning the permission, or as the one to whom an owner transfers it. */
  predicate MakesOwner(st: Store, step: Step, who: AccountId, id: PermissionId, scope: Scope) {
    match step
    case GrantStep(_, _, _, _) => false
    case TransferStep(signer, to, i, s) => to == who && i == id && s == scope && id in st.modes &&
        signer in st.Owners(id, scope)
    case CreateStep(owner, _, i, s, _) => owner == who && i == id && s == scope && id !in st.modes
    case AssignStep(owner, _, i, s) => owner == who && i == id && s == scope && id in st.modes
  }

  lemma Replaced(s: seq<AccountId>, i: nat, x: AccountId, who: AccountId)
    requires i < |s|
    ensures who in s[i := x] ==> who in s || who == x
    ensures x in s[i := x]
  {
    assert s[i := x][i] == x;
  }

  lemma TransferMakesOwner(st: Store, signer: AccountId, to: AccountId, i: PermissionId, s: Scope,
                           who: AccountId, id: PermissionId, scope: Scope)
    ensures var step := TransferStep(signer, to, i, s);
            && (who in Apply(st, step).Owners(id, scope) ==>
                who in st.Owners(id, scope) || MakesOwner(st, step, who, id, scope))
            && (MakesOwner(st, step, who, id, scope) ==> who in Apply(st, step).Owners(id, scope))
  {
    var list := st.Owners(i, s);
    if i in st.modes && signer in list {
      Replaced(list, FirstPosition(list, signer), to, who);
    }
  }

  lemma StepMakesOwners(st: Store, step: Step, who: AccountId, id: PermissionId, scope: Scope)
    ensures who in Apply(st, step).Owners(id, scope) ==>
            who in st.Owners(id, scope) || MakesOwner(st, step, who, id, scope)
    ensures MakesOwner(st, step, who, id, scope) ==> who in Apply(st, step).Owners(id, scope)
  {
    if step.TransferStep? {
      TransferMakesOwner(st, step.who, step.to, step.id, step.scope, who, id, scope);
    } else {
      OwnersAdded(st, step, id, scope);
    }
  }

  /** Whoever owns a permission after a run owned it before, or was made an owner by a step
      that had the right to, in the store as it then was. */
  lemma {:induction false} OwnersWereMade(st: Store, steps: seq<Step>, who: AccountId, id: PermissionId, scope: Scope)
    requires who in Run(st, steps).Owners(id, scope)
    ensures who in st.Owners(id, scope)
            || exists k :: 0 <= k < |steps| && MakesOwner(Run(st, steps[..k]), steps[k], who, id, scope)
    decreases |steps|
  {
    if steps != [] {
      var st', rest := Apply(st, steps[0]), steps[1..];
      OwnersWereMade(st', rest, who, id, scope);
      StepMakesOwners(st, steps[0], who, id, scope);
      assert steps[..0] == [];
      if k :| 0 <= k < |rest| && MakesOwner(Run(st', rest[..k]), rest[k], who, id, scope) {
        assert steps[..k + 1][0] == steps[0] && steps[..k + 1][1..] == rest[..k];
        assert MakesOwner(Run(st, steps[..k + 1]), steps[k + 1], who, id, scope);
      } else if who in st.Owners(id, scope) {
      } else {
        assert MakesOwner(Run(st, steps[..0]), steps[0], who, id, scope);
      }
    }
  }

  // ----- which steps are refused, and why

  /** Why a step is refused, if it is. Granting is not told from its absence when a permission has
      owners in the scope only; assigning fails when it would change nothing. */
  function Refusal(st: Store, step: Step): Option<PermissionError> {
    match step
    case GrantStep(who, _, id, scope) =>
      if MayGrant(st, who, id, scope) then None
      else if st.Owners(id, Unlimited) == [] then Some(PermissionNotFound) else Some(PermissionNotOwned)
    case TransferStep(who, _, id, scope) =>
      if id in st.modes && who in st.Owners(id, scope) then None
      else if id !in st.modes || st.Owners(id, scope) == [] then Some(PermissionNotFound) else Some(PermissionNotOwned)
    case CreateStep(_, _, id, _, _) => if id in st.modes then Some(PermissionAlreadyExists) else None
    case AssignStep(owner, holder, id, scope) =>
      if id !in st.modes then Some(PermissionNotFound)
      else if owner in st.Owners(id, scope) && (st.modes[id] == Forbid || id in st.Held(holder, scope))
      then Some(PermissionAlreadyExists)
      else None
  }

  /** In every store with sorted vectors a step is refused exactly for that reason. */
  lemma RefusedExactly(st: Store, step: Step)
    requires Inv(st)
    ensures match Refusal(st, step)
            case None => Attempt(st, step).Ok?
            case Some(e) => Attempt(st, step) == Err(e)
  {
    if step.AssignStep? { SearchIsMembership(st.Held(step.holder, step.scope), step.id); }
  }

  // ----- modes

  /** The step creates the permission, which does not exist yet. */
  predicate Creates(st: Store, step: Step, id: PermissionId) {
    step.CreateStep? && step.id == id && id !in st.modes
  }

  /** A step sets a mode exactly when it creates the permission, to the one requested. */
  lemma ModesExactly(st: Store, step: Step, id: PermissionId)
    ensures id in Apply(st, step).modes <==> id in st.modes || Creates(st, step, id)
    ensures id in st.modes ==> Apply(st, step).modes[id] == st.modes[id]
    ensures Creates(st, step, id) ==> Apply(st, step).modes[id] == step.mode
  {
  }

  /** Along a run a permission comes to exist exactly when it did at the start or some step created
      it, and its mode is the one it had then, or was created with. */
  lemma {:induction false} ModesWereSet(st: Store, steps: seq<Step>, id: PermissionId)
    ensures id in Run(st, steps).modes <==>
            id in st.modes || exists k :: 0 <= k < |steps| && Creates(Run(st, steps[..k]), steps[k], id)
    ensures id in st.modes ==> Run(st, steps).modes[id] == st.modes[id]
    ensures forall k :: 0 <= k < |steps| && Creates(Run(st, steps[..k]), steps[k], id) ==>
              Run(st, steps).modes[id] == steps[k].mode
    decreases |steps|
  {
    if steps != [] {
      var st', rest := Apply(st, steps[0]), steps[1..];
      ModesExactly(st, steps[0], id);
      ModesWereSet(st', rest, id);
      forall k | 0 <= k < |rest|
        ensures Run(st', rest[..k]) == Run(st, steps[..k + 1]) && rest[k] == steps[k + 1]
      {
        assert steps[..k + 1][0] == steps[0] && steps[..k + 1][1..] == rest[..k];
      }
      assert steps[..0] == [];
      if k :| 0 <= k < |rest| && Creates(Run(st', rest[..k]), rest[k], id) {
        assert Creates(Run(st, steps[..k + 1]), steps[k + 1], id);
      }
      forall k | 0 <= k < |steps| && Creates(Run(st, steps[..k]), steps[k], id)
        ensures id in Run(st, steps).modes && Run(st, steps).modes[id] == steps[k].mode
      {
        assert k == 0 || Creates(Run(st', rest[..k - 1]), rest[k - 1], id);
      }
    }
  }
}
