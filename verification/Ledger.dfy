/** The assets ledger under the pools: balances per asset and account, the issuance of
    each asset, the reserves cache and the registered technical accounts. Accounts of
    a pool and its marker asset are derived injectively from the pair's target asset. */
module Ledger {
  import opened FixedPoint
  import opened Swaps
  import opened XykMath

  datatype Asset = Base | Listed(id: nat) | Marker(target: Asset)

  datatype Account = User(id: nat) | PoolOf(target: Asset) | FeesOf(target: Asset)

  /** The balances of one asset; an absent account holds nothing. */
  type Book = map<Account, nat>

  function Balance(book: Book, who: Account): nat {
    if who in book then book[who] else 0
  }

  ghost function Total(book: Book): nat
    decreases |book|
  {
    if book == map[] then 0
    else
      var who :| who in book;
      assert |book - {who}| < |book| by { assert (book - {who}).Keys == book.Keys - {who}; }
      book[who] + Total(book - {who})
  }

  datatype State = State(
    books: map<Asset, Book>,
    issuance: map<Asset, nat>,
    reserves: map<(Asset, Asset), (nat, nat)>,
    registered: set<Account>)
  {
    function Book(asset: Asset): Book {
      if asset in books then books[asset] else map[]
    }

    function Free(asset: Asset, who: Account): nat {
      Balance(Book(asset), who)
    }

    function Issued(asset: Asset): nat {
      if asset in issuance then issuance[asset] else 0
    }

    function Cached(base: Asset, target: Asset): (nat, nat) {
      if (base, target) in reserves then reserves[(base, target)] else (0, 0)
    }

    function Issue(asset: Asset, amount: nat): State {
      this.(issuance := issuance[asset := amount])
    }

    function Set(asset: Asset, who: Account, amount: nat): State {
      this.(books := books[asset := Book(asset)[who := amount]])
    }
  }

  // ----- what an operation of the ledger does

  function Transferred(st: State, asset: Asset, from: Account, to: Account, amount: nat): PoolResult<State> {
    if amount == 0 || from == to then Ok(st)
    else if st.Free(asset, from) < amount then Err(BalanceTooLow)
    else if st.Free(asset, to) + amount >= U128 then Err(BalanceOverflow)
    else Ok(st.Set(asset, from, st.Free(asset, from) - amount).Set(asset, to, st.Free(asset, to) + amount))
  }

  function Minted(st: State, asset: Asset, to: Account, amount: nat): PoolResult<State> {
    if st.Issued(asset) + amount >= U128 then Err(BalanceOverflow)
    else Ok(st.Set(asset, to, st.Free(asset, to) + amount).Issue(asset, st.Issued(asset) + amount))
  }

  function Burned(st: State, asset: Asset, from: Account, amount: nat): PoolResult<State> {
    if st.Free(asset, from) < amount || st.Issued(asset) < amount then Err(BalanceTooLow)
    else Ok(st.Set(asset, from, st.Free(asset, from) - amount).Issue(asset, st.Issued(asset) - amount))
  }

  /** A transfer from or to a technical account needs that account registered. */
  function TransferredIn(st: State, asset: Asset, from: Account, tech: Account, amount: nat): PoolResult<State> {
    if tech !in st.registered then Err(TechAccountIdIsNotRegistered) else Transferred(st, asset, from, tech, amount)
  }

  function TransferredOut(st: State, asset: Asset, tech: Account, to: Account, amount: nat): PoolResult<State> {
    if tech !in st.registered then Err(TechAccountIdIsNotRegistered) else Transferred(st, asset, tech, to, amount)
  }

  /** The cache entry of a pair is kept base asset first. */
  function ReservesUpdated(st: State, a: Asset, b: Asset, balances: (nat, nat)): State {
    if a == Base then st.(reserves := st.reserves[(a, b) := balances])
    else st.(reserves := st.reserves[(b, a) := (balances.1, balances.0)])
  }

  // ----- the chain's storage, updated in place

  class Chain {
    var books: map<Asset, Book>
    var issuance: map<Asset, nat>
    var reserves: map<(Asset, Asset), (nat, nat)>
    var registered: set<Account>

    function View(): State
      reads this
    {
      State(books, issuance, reserves, registered)
    }

    /** Rolls storage back to a snapshot. */
    method Restore(st: State)
      modifies this
      ensures View() == st
    {
      books, issuance, reserves, registered := st.books, st.issuance, st.reserves, st.registered;
    }

    method SetBalance(asset: Asset, who: Account, amount: nat)
      modifies this`books
      ensures View() == old(View()).Set(asset, who, amount)
    {
      var book := if asset in books then books[asset] else map[];
      books := books[asset := book[who := amount]];
    }

    method SetIssuance(asset: Asset, amount: nat)
      modifies this`issuance
      ensures View() == old(View()).Issue(asset, amount)
    {
      issuance := issuance[asset := amount];
    }

    method Transfer(asset: Asset, from: Account, to: Account, amount: nat) returns (r: PoolResult<()>)
      modifies this`books
      ensures match Transferred(old(View()), asset, from, to, amount)
              case Ok(st) => r == Ok(()) && View() == st
              case Err(e) => r == Err(e) && View() == old(View())
    {
      if amount == 0 || from == to { return Ok(()); }
      var debit, credit := View().Free(asset, from), View().Free(asset, to);
      if debit < amount { return Err(BalanceTooLow); }
      if credit + amount >= U128 { return Err(BalanceOverflow); }
      SetBalance(asset, from, debit - amount);
      SetBalance(asset, to, credit + amount);
      r := Ok(());
    }

    method TransferIn(asset: Asset, from: Account, tech: Account, amount: nat) returns (r: PoolResult<()>)
      modifies this`books
      ensures match TransferredIn(old(View()), asset, from, tech, amount)
              case Ok(st) => r == Ok(()) && View() == st
              case Err(e) => r == Err(e) && View() == old(View())
    {
      if tech !in registered { return Err(TechAccountIdIsNotRegistered); }
      r := Transfer(asset, from, tech, amount);
    }

    method TransferOut(asset: Asset, tech: Account, to: Account, amount: nat) returns (r: PoolResult<()>)
      modifies this`books
      ensures match TransferredOut(old(View()), asset, tech, to, amount)
              case Ok(st) => r == Ok(()) && View() == st
              case Err(e) => r == Err(e) && View() == old(View())
    {
      if tech !in registered { return Err(TechAccountIdIsNotRegistered); }
      r := Transfer(asset, tech, to, amount);
    }

    method MintTo(asset: Asset, to: Account, amount: nat) returns (r: PoolResult<()>)
      modifies this`books, this`issuance
      ensures match Minted(old(View()), asset, to, amount)
              case Ok(st) => r == Ok(()) && View() == st
              case Err(e) => r == Err(e) && View() == old(View())
    {
      var issued := View().Issued(asset);
      if issued + amount >= U128 { return Err(BalanceOverflow); }
      SetBalance(asset, to, View().Free(asset, to) + amount);
      SetIssuance(asset, issued + amount);
      r := Ok(());
    }

    method BurnFrom(asset: Asset, from: Account, amount: nat) returns (r: PoolResult<()>)
      modifies this`books, this`issuance
      ensures match Burned(old(View()), asset, from, amount)
              case Ok(st) => r == Ok(()) && View() == st
              case Err(e) => r == Err(e) && View() == old(View())
    {
      var free, issued := View().Free(asset, from), View().Issued(asset);
      if free < amount || issued < amount { return Err(BalanceTooLow); }
      SetBalance(asset, from, free - amount);
      SetIssuance(asset, issued - amount);
      r := Ok(());
    }

    method UpdateReserves(a: Asset, b: Asset, balances: (nat, nat))
      modifies this`reserves
      ensures View() == ReservesUpdated(old(View()), a, b, balances)
    {
      if a == Base {
        reserves := reserves[(a, b) := balances];
      } else {
        reserves := reserves[(b, a) := (balances.1, balances.0)];
      }
    }
  }

  // ----- sums of balances

  lemma {:induction false} TotalRemove(book: Book, who: Account)
    requires who in book
    ensures Total(book) == book[who] + Total(book - {who})
    decreases |book|
  {
    var first :| first in book && Total(book) == book[first] + Total(book - {first});
    if first != who {
      assert (book - {first}).Keys == book.Keys - {first};
      TotalRemove(book - {first}, who);
      assert (book - {who}).Keys == book.Keys - {who};
      TotalRemove(book - {who}, first);
      assert book - {first} - {who} == book - {who} - {first};
    }
  }

  lemma TotalUpdate(book: Book, who: Account, amount: nat)
    ensures Total(book[who := amount]) == Total(book) - Balance(book, who) + amount
  {
    TotalRemove(book[who := amount], who);
    assert book[who := amount] - {who} == book - {who};
    if who in book {
      TotalRemove(book, who);
    } else {
      assert book - {who} == book;
    }
  }

  lemma BalanceBelowTotal(book: Book, who: Account)
    ensures Balance(book, who) <= Total(book)
  {
    if who in book { TotalRemove(book, who); }
  }

  lemma TwoBelowTotal(book: Book, a: Account, b: Account)
    requires a != b
    ensures Balance(book, a) + Balance(book, b) <= Total(book)
  {
    if a in book {
      TotalRemove(book, a);
      BalanceBelowTotal(book - {a}, b);
    } else {
      BalanceBelowTotal(book, b);
    }
  }

  // ----- a sound ledger

  /** Every issuance is the sum of the balances, and fits in 128 bits. */
  ghost predicate Sound(st: State) {
    forall asset: Asset :: st.Issued(asset) == Total(st.Book(asset)) < U128
  }

  /** Balances moved from one account to another; nothing else changed. */
  ghost predicate MovedBy(st: State, st': State, asset: Asset, from: Account, to: Account, amount: nat) {
    && st'.issuance == st.issuance && st'.reserves == st.reserves && st'.registered == st.registered
    && forall x: Asset, who: Account :: st'.Free(x, who) == st.Free(x, who)
         - (if x == asset && who == from then amount else 0) + (if x == asset && who == to then amount else 0)
  }

  lemma SetFree(st: State, asset: Asset, who: Account, amount: nat)
    ensures forall x: Asset, w: Account ::
              st.Set(asset, who, amount).Free(x, w) == if x == asset && w == who then amount else st.Free(x, w)
  {
  }

  lemma TransferMoves(st: State, asset: Asset, from: Account, to: Account, amount: nat)
    requires Transferred(st, asset, from, to, amount).Ok?
    ensures MovedBy(st, Transferred(st, asset, from, to, amount).value, asset, from, to, amount)
  {
    if amount != 0 && from != to {
      var half := st.Set(asset, from, st.Free(asset, from) - amount);
      SetFree(st, asset, from, st.Free(asset, from) - amount);
      SetFree(half, asset, to, st.Free(asset, to) + amount);
    }
  }

  lemma TransferSound(st: State, asset: Asset, from: Account, to: Account, amount: nat)
    requires Sound(st) && Transferred(st, asset, from, to, amount).Ok?
    ensures Sound(Transferred(st, asset, from, to, amount).value)
  {
    if amount != 0 && from != to {
      var half := st.Book(asset)[from := st.Free(asset, from) - amount];
      TotalUpdate(st.Book(asset), from, st.Free(asset, from) - amount);
      TotalUpdate(half, to, st.Free(asset, to) + amount);
      var st' := Transferred(st, asset, from, to, amount).value;
      assert st'.Book(asset) == half[to := st.Free(asset, to) + amount];
      assert forall x: Asset :: x != asset ==> st'.Book(x) == st.Book(x);
    }
  }

  /** On a sound ledger a transfer fails only for want of funds. */
  lemma TransferSucceeds(st: State, asset: Asset, from: Account, to: Account, amount: nat)
    requires Sound(st)
    ensures Transferred(st, asset, from, to, amount).Ok? <==> from == to || amount <= st.Free(asset, from)
  {
    if from != to { TwoBelowTotal(st.Book(asset), from, to); }
  }

  /** A transfer of available funds on a sound ledger. */
  lemma TransferStep(st: State, asset: Asset, from: Account, to: Account, amount: nat) returns (st': State)
    requires Sound(st) && (from == to || amount <= st.Free(asset, from))
    ensures Transferred(st, asset, from, to, amount) == Ok(st')
    ensures MovedBy(st, st', asset, from, to, amount) && Sound(st')
  {
    TransferSucceeds(st, asset, from, to, amount);
    TransferMoves(st, asset, from, to, amount);
    TransferSound(st, asset, from, to, amount);
    st' := Transferred(st, asset, from, to, amount).value;
  }

  lemma MintSound(st: State, asset: Asset, to: Account, amount: nat)
    requires Sound(st) && Minted(st, asset, to, amount).Ok?
    ensures Sound(Minted(st, asset, to, amount).value)
  {
    var st' := Minted(st, asset, to, amount).value;
    TotalUpdate(st.Book(asset), to, st.Free(asset, to) + amount);
    assert forall x: Asset :: x != asset ==> st'.Book(x) == st.Book(x);
  }

  lemma BurnSound(st: State, asset: Asset, from: Account, amount: nat)
    requires Sound(st) && Burned(st, asset, from, amount).Ok?
    ensures Sound(Burned(st, asset, from, amount).value)
  {
    var st' := Burned(st, asset, from, amount).value;
    TotalUpdate(st.Book(asset), from, st.Free(asset, from) - amount);
    assert forall x: Asset :: x != asset ==> st'.Book(x) == st.Book(x);
  }

  lemma BurnSucceeds(st: State, asset: Asset, from: Account, amount: nat)
    requires Sound(st)
    ensures Burned(st, asset, from, amount).Ok? <==> amount <= st.Free(asset, from)
  {
    BalanceBelowTotal(st.Book(asset), from);
  }

  lemma HolderBelowIssuance(st: State, asset: Asset, who: Account)
    requires Sound(st)
    ensures st.Free(asset, who) <= st.Issued(asset) < U128
  {
    BalanceBelowTotal(st.Book(asset), who);
  }
}
