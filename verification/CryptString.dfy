/** The doubling buffer for strings with a password in them, FormatCryptString of
    include/base/cryptstring.h: it leaves no copy of its contents behind. */
module CryptString {

  const NUL: char := '\0'

  const FIRST: nat := 32

  function Pow2(k: nat): (r: nat)
    ensures r > 0
  {
    if k == 0 then 1 else 2 * Pow2(k - 1)
  }

  /** 32 times a power of two. */
  ghost predicate IsSize(n: nat) { exists k: nat :: n == FIRST * Pow2(k) }

  /** The doubling loop of EnsureStorage. */
  function Grown(capacity: nat, n: nat): (r: nat)
    requires capacity > 0
    ensures capacity <= r && n <= r && (r == capacity || r < 2 * n)
    ensures r == capacity <==> n <= capacity
    ensures r > capacity ==> r >= 2 * capacity
    decreases n - capacity
  {
    if n <= capacity then capacity else Grown(2 * capacity, n)
  }

  lemma {:induction false} GrownIsSize(capacity: nat, n: nat)
    requires capacity > 0 && IsSize(capacity)
    ensures IsSize(Grown(capacity, n))
    decreases n - capacity
  {
    if n > capacity {
      var k: nat :| capacity == FIRST * Pow2(k);
      assert 2 * capacity == FIRST * Pow2(k + 1);
      GrownIsSize(2 * capacity, n);
    }
  }

  /** The smallest size on the doubling ladder from `capacity` that n fits in. */
  lemma {:induction false} GrownIsLeast(capacity: nat, n: nat, k: nat)
    requires capacity > 0 && n <= capacity * Pow2(k)
    ensures Grown(capacity, n) <= capacity * Pow2(k)
    decreases k
  {
    if n > capacity {
      assert k > 0;
      assert capacity * Pow2(k) == (2 * capacity) * Pow2(k - 1);
      GrownIsLeast(2 * capacity, n, k - 1);
    } else {
      assert capacity * Pow2(k) >= capacity;
    }
  }

  ghost predicate AllZero(a: array<char>) reads a { forall i :: 0 <= i < a.Length ==> a[i] == NUL }

  /** The zeroing loop: each byte is copied from the one before. */
  method Zero(a: array<char>)
    requires a.Length > 0
    modifies a
    ensures AllZero(a)
  {
    a[0] := NUL;
    for i := 1 to a.Length
      invariant forall j :: 0 <= j < i ==> a[j] == NUL
    {
      a[i] := a[i - 1];
    }
  }

  /** The memcpy of an append and the NUL behind it. */
  method PutTerminated(a: array<char>, at: nat, data: string)
    requires at + |data| < a.Length
    modifies a
    ensures a[..at + |data|] == old(a[..at]) + data && a[at + |data|] == NUL
  {
    forall i | 0 <= i < |data| { a[at + i] := data[i]; }
    assert a[..at + |data|] == old(a[..at]) + data;
    a[at + |data|] := NUL;
  }

  class FormatCryptString {
    var storage: array<char>
    var capacity: nat
    var length: nat
    ghost var copied: nat                  // bytes ever copied by growth
    ghost var discarded: set<array<char>>  // blocks given back to the heap

    ghost predicate Valid() reads this, storage, discarded {
      && storage.Length == capacity && length < capacity && storage[length] == NUL
      && IsSize(capacity) && copied < capacity
      && storage !in discarded && (forall a :: a in discarded ==> AllZero(a))
    }

    /** Storage is at most doubled for what was appended. */
    ghost predicate Tight() reads this { capacity == 32 || capacity < 2 * (length + 1) }

    ghost function Contents(): string reads this, storage, discarded requires Valid() { storage[..length] }

    constructor ()
      ensures Valid() && Tight() && Contents() == "" && fresh(storage) && discarded == {} && copied == 0
      ensures capacity == 32
    {
      storage := new char[FIRST];
      capacity, length, copied, discarded := FIRST, 0, 0, {};
      new;
      storage[0] := NUL;
      assert capacity == FIRST * Pow2(0);
    }

    method Double(n: nat)
      requires 0 < capacity < n
      modifies this`capacity
      ensures capacity == Grown(old(capacity), n)
    {
      while true
        invariant 0 < capacity < n && Grown(capacity, n) == Grown(old(capacity), n)
        decreases n - capacity
      {
        capacity := capacity * 2;
        if capacity >= n { break; }
      }
    }

    /** Makes room for n bytes, keeping the contents and wiping the old block.  Growth copies
        `length` bytes and not the NUL behind them, so the string stays terminated exactly
        when nothing grew or the fresh memory, whose bytes are `junk`, happens to hold one. */
    method EnsureStorage(n: nat, junk: nat -> char)
      requires Valid()
      modifies this`storage, this`capacity, this`copied, this`discarded, storage
      ensures storage.Length == capacity == Grown(old(capacity), n) && IsSize(capacity) && copied < capacity
      ensures length < capacity && storage[..length] == old(Contents())
      ensures storage[length] == NUL <==> n <= old(capacity) || junk(length) == NUL
      ensures Valid() <==> n <= old(capacity) || junk(length) == NUL
      ensures storage !in discarded && forall a :: a in discarded ==> AllZero(a)
      ensures if n <= old(capacity) then storage == old(storage) && discarded == old(discarded) && copied == old(copied)
              else fresh(storage) && discarded == old(discarded) + {old(storage)} && copied == old(copied) + length
    {
      if capacity >= n { return; }
      GrownIsSize(capacity, n);
      ghost var was := storage[..length];
      var old_storage := storage;
      Double(n);
      storage := new char[capacity](i requires i >= 0 => junk(i));
      forall i | 0 <= i < length { storage[i] := old_storage[i]; }
      assert storage[..length] == was;
      copied := copied + length;
      Zero(old_storage);
      discarded := discarded + {old_storage};
      assert storage[..length] == was;
    }

    method Append(data: string, junk: nat -> char)
      requires Valid()
      modifies this, storage
      ensures Valid() && Contents() == old(Contents()) + data
      ensures old(Tight()) ==> Tight()
      ensures storage == old(storage) || (fresh(storage) && discarded == old(discarded) + {old(storage)})
      ensures copied == old(copied) + (if storage == old(storage) then 0 else old(length))
    {
      EnsureStorage(length + |data| + 1, junk);
      PutTerminated(storage, length, data);
      length := length + |data|;
    }

    method Destructor()
      requires Valid()
      modifies storage
      ensures AllZero(storage) && forall a :: a in discarded ==> AllZero(a)
    {
      Zero(storage);
    }

    /** Any sequence of appends. */
    method AppendAll(texts: seq<string>, junk: nat -> char)
      requires Valid() && Tight()
      modifies this, storage
      ensures Valid() && Tight() && Contents() == old(Contents()) + Concat(texts)
      decreases |texts|
    {
      if texts == [] {
        assert Contents() + Concat(texts) == Contents();
        return;
      }
      ghost var was := Contents();
      Append(texts[0], junk);
      AppendAll(texts[1..], junk);
      assert was + texts[0] + Concat(texts[1..]) == was + (texts[0] + Concat(texts[1..]));
    }
  }

  function Concat(texts: seq<string>): string { if texts == [] then "" else texts[0] + Concat(texts[1..]) }
}
