/** Lock safety, lock freshness and isolation, over every interleaving of atomic steps
    by any number of backends. */
module StoreLaws {
  import opened Wrappers
  import opened Numbers
  import opened StateStore

  /** One atomic step of one client, by the prefix of its backend. A lock granted by
      another store of the process moves the shared counter on. */
  datatype Op =
    | Read(prefix: string, id: string)
    | Write(prefix: string, id: string, data: seq<byte>)
    | Delete(prefix: string, id: string)
    | List(prefix: string)
    | Lock(prefix: string, id: string, operation: string)
    | Unlock(prefix: string, id: string, lockId: string)
    | GrantElsewhere

  function Next(w: World, op: Op): World {
    match op
    case Read(_, _) => w
    case Write(p, id, data) => w.(states := w.states[p + id := data])
    case Delete(p, id) => w.(states := w.states - {p + id})
    case List(_) => w
    case Lock(p, id, operation) => LockAt(w, p + id, operation).0
    case Unlock(p, id, lockId) => UnlockAt(w, p + id, lockId).0
    case GrantElsewhere => w.(next := Increment(w.next))
  }

  function After(w: World, ops: seq<Op>): World {
    if ops == [] then w else Next(After(w, ops[..|ops| - 1]), ops[|ops| - 1])
  }

  // --- lock identifiers -------------------------------------------------------

  lemma {:induction false} DigitsInjective(i: nat, j: nat)
    requires i < 10 && j < 10
    ensures DIGITS[i] == DIGITS[j] <==> i == j
  {
  }

  lemma {:induction false} DecimalInjective(m: nat, n: nat)
    ensures Decimal(m) == Decimal(n) <==> m == n
  {
    var a, b := Decimal(m), Decimal(n);
    DecimalParts(m);
    DecimalParts(n);
    if a == b {
      DigitsInjective(m % 10, n % 10);
      if m >= 10 && n >= 10 { DecimalInjective(m / 10, n / 10); }
    }
  }

  lemma {:induction false} DecimalParts(n: nat)
    ensures var s := Decimal(n);
            && s[|s| - 1] == DIGITS[n % 10]
            && (n < 10 <==> |s| == 1)
            && (n >= 10 ==> s[..|s| - 1] == Decimal(n / 10))
  {
    var front := if n < 10 then "" else Decimal(n / 10);
    assert Decimal(n) == front + [DIGITS[n % 10]];
  }

  /** The last dash of a text stands where it was put. */
  lemma {:induction false} DashAtMost(x: string, d: string, k: nat)
    requires '-' !in d && k <= |x| + |d|
    ensures (x + "-" + d)[|x|] == '-'
    ensures (x + "-" + d)[k] == '-' ==> k <= |x|
  {
    var a := x + "-" + d;
    assert k > |x| ==> a[k] == d[k - |x| - 1] && d[k - |x| - 1] in d;
  }

  /** Two texts cut at their last dash. */
  lemma {:induction false} LastDash(x: string, d: string, y: string, e: string)
    requires '-' !in d && '-' !in e
    ensures x + "-" + d == y + "-" + e <==> x == y && d == e
  {
    var a, b := x + "-" + d, y + "-" + e;
    if a == b {
      assert |x| + |d| == |y| + |e|;
      DashAtMost(x, d, |y|);
      DashAtMost(y, e, |x|);
      assert x == a[..|x|] && y == b[..|y|] && d == a[|x| + 1..] && e == b[|y| + 1..];
    }
  }

  /** The decimal suffix makes an identifier spell its operation and its number. */
  lemma {:induction false} LockIdInjective(a: string, m: u64, b: string, n: u64)
    ensures LockId(a, m) == LockId(b, n) <==> a == b && m == n
  {
    LastDash(a, Decimal(m), b, Decimal(n));
    DecimalInjective(m, n);
  }

  // --- a held lock ------------------------------------------------------------

  /** The step hands `key` back to its holder's identifier `x`. */
  predicate Releases(op: Op, key: string, x: string) { op.Unlock? && op.prefix + op.id == key && op.lockId == x }

  /** While nobody unlocks a held key with its exact identifier, it stays held under
      that identifier, every further lock on it is refused and names the holder, and
      an unlock with any other identifier fails and changes nothing. */
  lemma {:induction false} HeldUntilReleased(w: World, key: string, x: string, ops: seq<Op>)
    requires key in w.locks && w.locks[key] == x
    requires forall op | op in ops :: !Releases(op, key, x)
    ensures var v := After(w, ops);
            && key in v.locks && v.locks[key] == x
            && (forall operation :: LockAt(v, key, operation) == (v, Err(AlreadyHeld(x))))
            && (forall y | y != x :: UnlockAt(v, key, y) == (v, Err(WrongLock(x))))
            && UnlockAt(v, key, x) == (v.(locks := v.locks - {key}), Ok(()))
  {
    if ops != [] {
      HeldUntilReleased(w, key, x, ops[..|ops| - 1]);
      assert ops[|ops| - 1] in ops;
    }
  }

  /** A free key is granted, to its identifier alone; handing that back frees it again and
      leaves everything as it was but the counter; and handing anything back to a free key
      does nothing. */
  lemma {:induction false} LockCycle(w: World, key: string, operation: string, other: string)
    requires key !in w.locks
    ensures var (v, r) := LockAt(w, key, operation);
            && r == Ok(LockId(operation, w.next))
            && v == w.(locks := w.locks[key := r.value], next := v.next) && v.next != w.next
            && UnlockAt(v, key, r.value) == (w.(next := v.next), Ok(()))
    ensures UnlockAt(w, key, other) == (w, Ok(()))
  {
    var (v, r) := LockAt(w, key, operation);
    assert v.locks - {key} == w.locks;
  }

  /** Mutual exclusion. Between two grants of the same key the first holder's
      identifier was handed back. */
  lemma {:induction false} GrantsNeedRelease(w: World, key: string, operation: string, ops: seq<Op>, again: string)
    requires LockAt(w, key, operation).1.Ok?
    requires LockAt(After(LockAt(w, key, operation).0, ops), key, again).1.Ok?
    ensures exists op | op in ops :: Releases(op, key, LockAt(w, key, operation).1.value)
  {
    var (v, id) := LockAt(w, key, operation);
    if forall op | op in ops :: !Releases(op, key, id.value) {
      HeldUntilReleased(v, key, id.value, ops);
    }
  }

  // --- freshness --------------------------------------------------------------

  /** How often the steps move the counter on. */
  function Grants(w: World, ops: seq<Op>): nat {
    if ops == [] then 0
    else
      var n := |ops| - 1;
      Grants(w, ops[..n]) + if After(w, ops).next != After(w, ops[..n]).next then 1 else 0
  }

  function Wrapped(n: nat): u64 { n % (U64_MAX + 1) }

  lemma {:induction false} WrappedNext(n: nat)
    ensures Increment(Wrapped(n)) == Wrapped(n + 1)
  {
  }

  /** The counter is its start plus the number of grants, modulo its width. */
  lemma {:induction false} CounterAfter(w: World, ops: seq<Op>)
    ensures After(w, ops).next == Wrapped(w.next + Grants(w, ops))
  {
    if ops != [] {
      var n := |ops| - 1;
      CounterAfter(w, ops[..n]);
      WrappedNext(w.next + Grants(w, ops[..n]));
    }
  }

  /** The counter has gone round some number of times and is back where it was. */
  predicate WholeRounds(n: nat) { n % (U64_MAX + 1) == 0 }

  lemma {:induction false} SameResidue(a: u64, d: nat)
    ensures Wrapped(a + d) == a <==> WholeRounds(d)
    ensures Wrapped(Increment(a) + d) == Wrapped(a + (d + 1))
    ensures 0 < d <= U64_MAX ==> !WholeRounds(d)
  {
    ResidueBack(a, d);
    ResidueNext(a, d);
  }

  lemma {:induction false} ResidueBack(a: u64, d: nat)
    ensures Wrapped(a + d) == a <==> WholeRounds(d)
  {
  }

  lemma {:induction false} ResidueNext(a: u64, d: nat)
    ensures Wrapped(Increment(a) + d) == Wrapped(a + (d + 1))
  {
    if a == U64_MAX { assert a + (d + 1) == d + (U64_MAX + 1); }
  }

  lemma {:induction false} CounterBack(w: World, ops: seq<Op>, from: u64)
    requires w.next == Increment(from)
    ensures After(w, ops).next == from <==> WholeRounds(Grants(w, ops) + 1)
  {
    var d := Grants(w, ops);
    CounterAfter(w, ops);
    SameResidue(from, d);
    SameResidue(from, d + 1);
  }

  /** An identifier is issued a second time exactly when the operation is the same and
      the counter has gone round completely in between. */
  lemma {:induction false} ReissuedIffWrapped(w: World, key: string, a: string, ops: seq<Op>, other: string, b: string)
    requires LockAt(w, key, a).1.Ok?
    requires LockAt(After(LockAt(w, key, a).0, ops), other, b).1.Ok?
    ensures LockAt(After(LockAt(w, key, a).0, ops), other, b).1 == LockAt(w, key, a).1
            <==> a == b && WholeRounds(Grants(LockAt(w, key, a).0, ops) + 1)
  {
    var v := LockAt(w, key, a).0;
    CounterBack(v, ops, w.next);
    LockIdInjective(b, After(v, ops).next, a, w.next);
  }

  /** A stale identifier never releases a later holder, of any key, before the counter
      has gone round. */
  lemma {:induction false} StaleNeverReleases(w: World, key: string, a: string, ops: seq<Op>, other: string, b: string)
    requires LockAt(w, key, a).1.Ok?
    requires LockAt(After(LockAt(w, key, a).0, ops), other, b).1.Ok?
    requires Grants(LockAt(w, key, a).0, ops) < U64_MAX
    ensures var stale := LockAt(w, key, a).1.value;
            var (v, held) := LockAt(After(LockAt(w, key, a).0, ops), other, b);
            UnlockAt(v, other, stale) == (v, Err(WrongLock(held.value)))
  {
    ReissuedIffWrapped(w, key, a, ops, other, b);
    SameResidue(w.next, Grants(LockAt(w, key, a).0, ops) + 1);
  }

  // --- isolation --------------------------------------------------------------

  /** What a backend can observe: the states and locks under its prefix. */
  datatype View = View(states: map<string, seq<byte>>, locks: map<string, string>)

  function Under<V>(m: map<string, V>, prefix: string): map<string, V> {
    map k | k in m && prefix <= k :: m[k]
  }

  function Seen(w: World, prefix: string): View { View(Under(w.states, prefix), Under(w.locks, prefix)) }

  /** Neither prefix begins with the other. */
  predicate Incomparable(p: string, q: string) { !(p <= q) && !(q <= p) }

  /** Two prefixes of one key are comparable. */
  lemma {:induction false} KeysApart(p: string, q: string, id: string)
    ensures p <= q + id ==> !Incomparable(p, q)
  {
    if p <= q + id {
      if |p| <= |q| {
        assert p == (q + id)[..|p|] == q[..|p|];
      } else {
        assert q == (q + id)[..|q|] == p[..|q|];
      }
    }
  }

  /** A step through an incomparable prefix changes nothing a backend can observe. */
  lemma {:induction false} StepsIsolated(w: World, p: string, op: Op)
    requires !op.GrantElsewhere? ==> Incomparable(p, op.prefix)
    ensures Seen(Next(w, op), p) == Seen(w, p)
  {
    match op
    case Write(q, id, _) => KeysApart(p, q, id);
    case Delete(q, id) => KeysApart(p, q, id);
    case Lock(q, id, _) => KeysApart(p, q, id);
    case Unlock(q, id, _) => KeysApart(p, q, id);
    case _ =>
  }

  /** Isolation over every run: however many steps go through incomparable prefixes, and
      whatever other stores grant meanwhile, a backend observes no change, so its held
      locks stay held and its states stay listed. */
  lemma {:induction false} OthersIsolated(w: World, p: string, ops: seq<Op>)
    requires forall op | op in ops && !op.GrantElsewhere? :: Incomparable(p, op.prefix)
    ensures Seen(After(w, ops), p) == Seen(w, p)
  {
    if ops != [] {
      var n := |ops| - 1;
      OthersIsolated(w, p, ops[..n]);
      assert ops[n] in ops;
      StepsIsolated(After(w, ops[..n]), p, ops[n]);
    }
  }

  /** Comparable prefixes do interfere: in every world the other backend has a step
      that changes what this one observes. */
  lemma {:induction false} ComparableInterfere(w: World, p: string, q: string) returns (op: Op)
    requires !Incomparable(p, q)
    ensures op.Write? && op.prefix == q && Seen(Next(w, op), p) != Seen(w, p)
  {
    var id := if p <= q then "" else p[|q|..];
    var key := q + id;
    assert p <= key by { if !(p <= q) { assert key == p; } }
    var data := if key in w.states && w.states[key] == [] then [0] else [];
    op := Write(q, id, data);
    assert key in Seen(Next(w, op), p).states && Seen(Next(w, op), p).states[key] == data;
    assert key in w.states ==> w.states[key] != data;
  }

  // --- a backend is a finite map ----------------------------------------------

  /** The states of a backend by their ids. */
  function Table(w: World, p: string): map<string, seq<byte>> {
    map id | id in IdsUnder(w, p) && p + id in w.states :: w.states[p + id]
  }

  /** What a step does to a table, when it is this backend's own. */
  function TableStep(t: map<string, seq<byte>>, p: string, op: Op): map<string, seq<byte>> {
    match op
    case Write(q, id, data) => if q == p then t[id := data] else t
    case Delete(q, id) => if q == p then t - {id} else t
    case _ => t
  }

  function TableAfter(t: map<string, seq<byte>>, p: string, ops: seq<Op>): map<string, seq<byte>> {
    if ops == [] then t else TableStep(TableAfter(t, p, ops[..|ops| - 1]), p, ops[|ops| - 1])
  }

  lemma {:induction false} TableAt(w: World, p: string, id: string)
    ensures id in Table(w, p) <==> p + id in w.states
    ensures p + id in w.states ==> Table(w, p)[id] == w.states[p + id]
  {
    UnderPrefix(w, p);
  }

  lemma {:induction false} SameKey(p: string, a: string, b: string)
    ensures p + a == p + b <==> a == b
  {
    assert (p + a)[|p|..] == a && (p + b)[|p|..] == b;
  }

  /** One entry before and after a step. */
  lemma {:induction false} EntryStep(w: World, p: string, op: Op, id: string)
    requires !op.GrantElsewhere? ==> op.prefix == p || Incomparable(p, op.prefix)
    ensures id in Table(Next(w, op), p) <==> id in TableStep(Table(w, p), p, op)
    ensures id in Table(Next(w, op), p) ==> Table(Next(w, op), p)[id] == TableStep(Table(w, p), p, op)[id]
  {
    TableAt(w, p, id);
    TableAt(Next(w, op), p, id);
    if op.Write? || op.Delete? {
      if op.prefix == p {
        SameKey(p, op.id, id);
      } else {
        KeysApart(p, op.prefix, op.id);
        assert p <= p + id;
      }
    }
  }

  /** Refinement. Whatever backends with incomparable prefixes do in between, a
      backend's states are those of a private finite map to which only its own writes
      and deletes were applied. */
  lemma {:induction false} RefinesTable(w: World, p: string, ops: seq<Op>)
    requires forall op | op in ops && !op.GrantElsewhere? :: op.prefix == p || Incomparable(p, op.prefix)
    ensures Table(After(w, ops), p) == TableAfter(Table(w, p), p, ops)
  {
    if ops != [] {
      var n := |ops| - 1;
      RefinesTable(w, p, ops[..n]);
      assert ops[n] in ops;
      var v := After(w, ops[..n]);
      forall id
        ensures id in Table(Next(v, ops[n]), p) <==> id in TableStep(Table(v, p), p, ops[n])
        ensures id in Table(Next(v, ops[n]), p) ==>
                  Table(Next(v, ops[n]), p)[id] == TableStep(Table(v, p), p, ops[n])[id]
      {
        EntryStep(v, p, ops[n], id);
      }
    }
  }

  /** Reading gives the table's bytes, or nothing; a listing gives its keys, each once. */
  lemma {:induction false} RepliesFromTable(w: World, p: string, id: string, ids: seq<string>)
    requires ListingOf(ids, IdsUnder(w, p))
    ensures ReadAt(w, p + id) == if id in Table(w, p) then Table(w, p)[id] else []
    ensures ListingOf(ids, Table(w, p).Keys)
  {
    UnderPrefix(w, p);
  }
}
