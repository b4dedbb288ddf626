/** The in-memory state store: state bytes and locks in shared maps, one key prefix per
    backend, lock identifiers from a process-wide counter. */
module StateStore {
  import opened Wrappers
  import opened Numbers

  type byte = n: int | 0 <= n < 256

  /** Unsigned decimal, without leading zeros. */
  function Decimal(n: nat): (s: string)
    ensures s != "" && forall i | 0 <= i < |s| :: '0' <= s[i] <= '9'
  {
    (if n < 10 then "" else Decimal(n / 10)) + [DIGITS[n % 10]]
  }

  const DIGITS := "0123456789"

  /** `{operation}-{n}`. */
  function LockId(operation: string, n: u64): string { operation + "-" + Decimal(n) }

  datatype LockError = AlreadyHeld(held: string) | WrongLock(held: string)

  /** The shared storage at one moment, with the counter's next value. */
  datatype World = World(states: map<string, seq<byte>>, locks: map<string, string>, next: u64)

  function Increment(n: u64): u64 { if n == U64_MAX then 0 else n + 1 }

  // --- one atomic step on a key -----------------------------------------------

  function ReadAt(w: World, key: string): seq<byte> { if key in w.states then w.states[key] else [] }

  function LockAt(w: World, key: string, operation: string): (World, Result<string, LockError>) {
    if key in w.locks then (w, Err(AlreadyHeld(w.locks[key])))
    else
      var id := LockId(operation, w.next);
      (w.(locks := w.locks[key := id], next := Increment(w.next)), Ok(id))
  }

  function UnlockAt(w: World, key: string, lockId: string): (World, Result<(), LockError>) {
    if key !in w.locks then (w, Ok(()))
    else if w.locks[key] == lockId then (w.(locks := w.locks - {key}), Ok(()))
    else (w, Err(WrongLock(w.locks[key])))
  }

  /** The ids a listing must give: the keys under the prefix, with the prefix cut off. */
  function IdsUnder(w: World, prefix: string): set<string> {
    set k | k in w.states && prefix <= k :: k[|prefix|..]
  }

  ghost predicate ListingOf(ids: seq<string>, s: set<string>) {
    (forall id :: id in ids <==> id in s) && forall i, j | 0 <= i < j < |ids| :: ids[i] != ids[j]
  }

  // --- the objects ------------------------------------------------------------

  /** `LOCK_SEQ`, shared by every store of the process. */
  class LockSequence {
    var next: u64

    constructor ()
      ensures next == 1
    {
      next := 1;
    }

    /** `fetch_add`, wrapping around. */
    method FetchAdd() returns (n: u64)
      modifies this
      ensures n == old(next) && next == Increment(n)
    {
      n := next;
      next := if n == U64_MAX then 0 else n + 1;
    }
  }

  /** The maps that every backend of a store shares. */
  class InMemStore {
    var states: map<string, seq<byte>>
    var locks: map<string, string>
    const sequence: LockSequence

    constructor (sequence: LockSequence)
      ensures this.sequence == sequence && Now() == World(map[], map[], sequence.next)
    {
      this.sequence := sequence;
      states := map[];
      locks := map[];
    }

    /** Everything a step can see. */
    function Now(): World
      reads this, sequence
    {
      World(states, locks, sequence.next)
    }
  }

  /** A store seen through a configured prefix. */
  class InMemBackend {
    const prefix: string
    const store: InMemStore

    constructor (store: InMemStore, prefix: Option<string>)
      ensures this.store == store && this.prefix == (if prefix.Some? then prefix.value else "")
    {
      this.store := store;
      this.prefix := if prefix.Some? then prefix.value else "";
    }

    function Key(stateId: string): string { prefix + stateId }

    method ReadState(stateId: string) returns (data: seq<byte>)
      ensures data == ReadAt(store.Now(), Key(stateId))
    {
      data := if Key(stateId) in store.states then store.states[Key(stateId)] else [];
    }

    method WriteState(stateId: string, data: seq<byte>)
      modifies store
      ensures store.Now() == old(store.Now()).(states := old(store.states)[Key(stateId) := data])
    {
      store.states := store.states[Key(stateId) := data];
    }

    method DeleteState(stateId: string)
      modifies store
      ensures store.Now() == old(store.Now()).(states := old(store.states) - {Key(stateId)})
    {
      store.states := store.states - {Key(stateId)};
    }

    method Lock(stateId: string, operation: string) returns (r: Result<string, LockError>)
      modifies store, store.sequence
      ensures (store.Now(), r) == LockAt(old(store.Now()), Key(stateId), operation)
    {
      var key := Key(stateId);
      if key in store.locks {
        return Err(AlreadyHeld(store.locks[key]));
      }
      var n := store.sequence.FetchAdd();
      var lockId := LockId(operation, n);
      store.locks := store.locks[key := lockId];
      r := Ok(lockId);
    }

    method Unlock(stateId: string, lockId: string) returns (r: Result<(), LockError>)
      modifies store
      ensures (store.Now(), r) == UnlockAt(old(store.Now()), Key(stateId), lockId)
    {
      var key := Key(stateId);
      if key !in store.locks { return Ok(()); }
      var held := store.locks[key];
      if held != lockId { return Err(WrongLock(held)); }
      store.locks := store.locks - {key};
      r := Ok(());
    }

    /** The ids under the prefix, in no particular order. */
    method States() returns (ids: seq<string>)
      ensures ListingOf(ids, IdsUnder(store.Now(), prefix))
    {
      ids := [];
      var todo := store.states.Keys;
      while todo != {}
        invariant todo <= store.states.Keys
        invariant forall id :: id in ids <==> prefix + id in store.states && prefix + id !in todo
        invariant forall i, j | 0 <= i < j < |ids| :: ids[i] != ids[j]
      {
        var k :| k in todo;
        todo := todo - {k};
        if prefix <= k {
          assert prefix + k[|prefix|..] == k;
          assert forall id: string :: prefix + id == k ==> id == (prefix + id)[|prefix|..] == k[|prefix|..];
          ids := ids + [k[|prefix|..]];
        } else {
          assert forall id :: prefix + id != k;
        }
      }
      UnderPrefix(store.Now(), prefix);
    }
  }

  lemma {:induction false} UnderPrefix(w: World, prefix: string)
    ensures forall id :: id in IdsUnder(w, prefix) <==> prefix + id in w.states
  {
    forall id ensures id in IdsUnder(w, prefix) <==> prefix + id in w.states {
      assert (prefix + id)[|prefix|..] == id;
      if id in IdsUnder(w, prefix) {
        var k :| k in w.states && prefix <= k && k[|prefix|..] == id;
        assert prefix + k[|prefix|..] == k;
      }
    }
  }
}
