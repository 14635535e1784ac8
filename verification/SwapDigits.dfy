/** Swap reference counts as mixed-radix numbers.

    The low digit is in the swap_map byte: 0 .. 62, with a flag that says whether the number goes
    on.  The higher digits are one byte in each continuation page: 0 .. 127 and the same flag.  A
    byte is a number below 256. */
module SwapDigits {
  import opened Bits
  import opened Common

  const SWAP_MAP_MAX: nat := 0x3e
  const SWAP_MAP_BAD: nat := 0x3f
  const SWAP_HAS_CACHE: nat := 0x40
  const SWAP_CONT_MAX: nat := 0x7f
  const COUNT_CONTINUED: nat := 0x80
  const SWAP_MAP_SHMEM: nat := 0xbf

  // ----- the bits of a byte -----

  /** b & COUNT_CONTINUED */
  predicate Continued(b: nat) {
    b >= COUNT_CONTINUED
  }

  /** b & ~COUNT_CONTINUED */
  function Digit(b: nat): nat {
    if Continued(b) then b - COUNT_CONTINUED else b
  }

  /** b & SWAP_HAS_CACHE */
  predicate HasCache(b: nat) {
    Digit(b) >= SWAP_HAS_CACHE
  }

  /** b & ~SWAP_HAS_CACHE */
  function Count(b: nat): nat {
    if HasCache(b) then b - SWAP_HAS_CACHE else b
  }

  /** count | has_cache */
  function WithCache(count: nat, cache: bool): nat {
    if cache then count + SWAP_HAS_CACHE else count
  }

  /** The arithmetic above is the bit arithmetic of the source, on bytes: the flag, ... */
  lemma FlagBit(b: nat)
    requires b < 256
    ensures Continued(b) <==> Bit(b, 7) == 1
  {
    Split(b, 7);
    ShlBy128(Shr(b, 7));
    assert Pow2(7) == 128 by {
      assert Pow2(4) == 16;
    }
  }

  /** ... the digit without it, ... */
  lemma DigitBits(b: nat)
    requires b < 256
    ensures Digit(b) == BitAndNot(b, COUNT_CONTINUED)
  {
    FlagBit(b);
    AndNotBit(b, 7);
    assert Pow2(7) == 128 by {
      assert Pow2(4) == 16;
    }
  }

  /** ... the cache bit, ... */
  lemma CacheFlag(b: nat)
    requires b < 256
    ensures HasCache(b) <==> Bit(b, 6) == 1
  {
    var h := Shr(b, 6);
    Split(b, 6);
    ShlBy64(h);
    assert Pow2(6) == 64 by {
      assert Pow2(4) == 16;
    }
    Quarters(b, h, LowBits(b, 6));
  }

  lemma Quarters(b: nat, h: nat, low: nat)
    requires b == 64 * h + low && low < 64 && b < 256
    ensures HasCache(b) <==> h % 2 == 1
  {}

  /** ... and the count without it. */
  lemma CountBits(b: nat)
    requires b < 256
    ensures Count(b) == BitAndNot(b, SWAP_HAS_CACHE)
  {
    CacheFlag(b);
    AndNotBit(b, 6);
    assert Pow2(6) == 64 by {
      assert Pow2(4) == 16;
    }
  }

  lemma ShlBy64(x: nat)
    ensures Shl(x, 6) == 64 * x
  {
    assert Shl(x, 1) == 2 * x;
    assert Shl(x, 3) == 8 * x;
    assert Shl(x, 5) == 32 * x;
  }

  lemma ShlBy128(x: nat)
    ensures Shl(x, 7) == 128 * x
  {
    ShlBy64(x);
  }

  // ----- the higher digits -----

  ghost predicate Bytes(col: seq<nat>) {
    forall i | 0 <= i < |col| :: col[i] < 256
  }

  /** The number the continuation bytes of one offset stand for. */
  ghost function ColumnValue(col: seq<nat>): nat {
    if col == [] then 0 else Digit(col[0]) + 128 * (if Continued(col[0]) then ColumnValue(col[1..]) else 0)
  }

  /** The flags lead to a last digit, and that digit is not zero. */
  ghost predicate Normal(col: seq<nat>) {
    col != [] && if Continued(col[0]) then Normal(col[1..]) else col[0] >= 1
  }

  /** A number in normal form is positive. */
  lemma {:induction false} NormalPositive(col: seq<nat>)
    requires Normal(col)
    ensures ColumnValue(col) >= 1
    decreases |col|
  {
    if Continued(col[0]) {
      NormalPositive(col[1..]);
    }
  }

  /** Bytes behind the last digit, left over or never written, do not matter. */
  lemma {:induction false} TailIgnored(col: seq<nat>, more: seq<nat>)
    requires Normal(col)
    ensures Normal(col + more) && ColumnValue(col + more) == ColumnValue(col)
    decreases |col|
  {
    assert (col + more)[1..] == col[1..] + more;
    if Continued(col[0]) {
      TailIgnored(col[1..], more);
    }
  }

  /** Add one: None when the carry would need a page that is not there. */
  ghost function Increment(col: seq<nat>): Option<seq<nat>> {
    if col == [] then None
    else if Digit(col[0]) < SWAP_CONT_MAX then Some([col[0] + 1] + col[1..])
    else if !Continued(col[0]) then
      if |col| == 1 then None else Some([COUNT_CONTINUED, 1] + col[2..])
    else match Increment(col[1..])
      case None => None
      case Some(rest) => Some([COUNT_CONTINUED] + rest)
  }

  datatype Decremented = Decremented(col: seq<nat>, more: bool)

  /** Subtract one, and say whether anything is left. */
  ghost function Decrement(col: seq<nat>): Decremented
    requires Normal(col)
  {
    if col[0] == COUNT_CONTINUED then
      var r := Decrement(col[1..]);
      Decremented([SWAP_CONT_MAX + if r.more then COUNT_CONTINUED else 0] + r.col, true)
    else Decremented([col[0] - 1] + col[1..], col[0] != 1)
  }

  /** Carries of any length add exactly one and keep the normal form. */
  lemma {:induction false} IncrementAddsOne(col: seq<nat>)
    requires Normal(col) && Bytes(col) && Increment(col).Some?
    ensures var r := Increment(col).value;
      Normal(r) && Bytes(r) && |r| == |col| && ColumnValue(r) == ColumnValue(col) + 1
    decreases |col|
  {
    var r := Increment(col).value;
    if Digit(col[0]) < SWAP_CONT_MAX {
      assert r[1..] == col[1..];
    } else if !Continued(col[0]) {
      assert r[1..] == [1] + col[2..];
      assert r[1..][0] == 1;
    } else {
      var rest := col[1..];
      assert Bytes(rest);
      IncrementAddsOne(rest);
      assert r[1..] == Increment(rest).value;
    }
  }

  /** Borrows of any length subtract exactly one; what is left is in normal form or nothing. */
  lemma {:induction false} DecrementTakesOne(col: seq<nat>)
    requires Normal(col) && Bytes(col)
    ensures var r := Decrement(col);
      && Bytes(r.col) && |r.col| == |col| && ColumnValue(r.col) == ColumnValue(col) - 1
      && (if r.more then Normal(r.col) else ColumnValue(col) == 1)
    decreases |col|
  {
    var r := Decrement(col);
    if col[0] == COUNT_CONTINUED {
      var rest := col[1..];
      assert Bytes(rest);
      NormalPositive(rest);
      DecrementTakesOne(rest);
      assert r.col[1..] == Decrement(rest).col;
    } else {
      assert r.col[1..] == col[1..];
    }
  }

  // ----- the same, by position: what the loops leave in the pages -----

  /** A carry that stops at digit m with the value v. */
  ghost function Carry(col: seq<nat>, m: nat, v: nat): seq<nat>
    requires m < |col|
  {
    seq(|col|, j requires 0 <= j < |col| => if j < m then COUNT_CONTINUED else if j == m then v else col[j])
  }

  ghost predicate AllAre(col: seq<nat>, m: nat, v: nat) {
    m <= |col| && forall j | 0 <= j < m :: col[j] == v
  }

  /** The walk over full digits ends inside the list. */
  lemma {:induction false} WalkStops(col: seq<nat>, m: nat, v: nat)
    requires Normal(col) && AllAre(col, m, v) && Continued(v)
    ensures m < |col| && Normal(col[m..])
    decreases m
  {
    if m > 0 {
      assert forall j | 0 <= j < m - 1 :: col[1..][j] == col[j + 1];
      WalkStops(col[1..], m - 1, v);
      assert col[1..][m - 1..] == col[m..];
    } else {
      assert col[0..] == col;
    }
  }

  lemma {:induction false} IncrementByPosition(col: seq<nat>, m: nat)
    requires AllAre(col, m, SWAP_CONT_MAX + COUNT_CONTINUED) && m < |col|
      && col[m] != SWAP_CONT_MAX + COUNT_CONTINUED && col[m] < 256
    ensures col[m] != SWAP_CONT_MAX ==> Increment(col) == Some(Carry(col, m, col[m] + 1))
    ensures col[m] == SWAP_CONT_MAX && m + 1 < |col| ==> Increment(col) == Some(Carry(col, m + 1, 1))
    ensures col[m] == SWAP_CONT_MAX && m + 1 == |col| ==> Increment(col) == None
    decreases m
  {
    var rest := col[1..];
    if m == 0 {
      if col[0] != SWAP_CONT_MAX {
        assert Carry(col, 0, col[0] + 1) == [col[0] + 1] + rest;
      } else if |col| > 1 {
        assert Carry(col, 1, 1) == [COUNT_CONTINUED, 1] + col[2..];
      }
    } else {
      assert forall j | 0 <= j < m - 1 :: rest[j] == col[j + 1];
      IncrementByPosition(rest, m - 1);
      if col[m] != SWAP_CONT_MAX {
        assert Carry(col, m, col[m] + 1) == [COUNT_CONTINUED] + Carry(rest, m - 1, col[m] + 1);
      } else if m + 1 < |col| {
        assert Carry(col, m + 1, 1) == [COUNT_CONTINUED] + Carry(rest, m, 1);
      }
    }
  }

  /** A borrow that stops at digit m. */
  ghost function Borrow(col: seq<nat>, m: nat): seq<nat>
    requires m < |col| && col[m] >= 1
  {
    var left := col[m] != 1;
    seq(|col|, j requires 0 <= j < |col| =>
      if j + 1 < m then SWAP_CONT_MAX + COUNT_CONTINUED
      else if j + 1 == m then SWAP_CONT_MAX + if left then COUNT_CONTINUED else 0
      else if j == m then col[m] - 1
      else col[j])
  }

  lemma {:induction false} DecrementByPosition(col: seq<nat>, m: nat)
    requires Normal(col) && AllAre(col, m, COUNT_CONTINUED) && m < |col| && col[m] != COUNT_CONTINUED
    ensures col[m] >= 1
    ensures Decrement(col) == Decremented(Borrow(col, m), m > 0 || col[m] != 1)
    decreases m
  {
    var rest := col[1..];
    if m == 0 {
      assert Borrow(col, 0) == [col[0] - 1] + rest;
    } else {
      assert forall j | 0 <= j < m - 1 :: rest[j] == col[j + 1];
      DecrementByPosition(rest, m - 1);
      assert Borrow(col, m)[1..] == Borrow(rest, m - 1);
      assert Borrow(col, m) == [Borrow(col, m)[0]] + Borrow(rest, m - 1);
    }
  }

  // ----- a whole count: the swap_map digit and the continuation digits -----

  /** The count of an ordinary entry. */
  ghost function EntryValue(count: nat, col: seq<nat>): nat {
    Digit(count) + 63 * (if Continued(count) then ColumnValue(col) else 0)
  }

  ghost predicate EntryNormal(count: nat, col: seq<nat>) {
    Digit(count) <= SWAP_MAP_MAX && (Continued(count) ==> Normal(col))
  }

  /** Adding one to a count, with and without a carry. */
  lemma CountUp(c: nat, col: seq<nat>)
    requires EntryNormal(c, col) && Bytes(col) && c < 256
    ensures Digit(c) < SWAP_MAP_MAX ==>
      EntryNormal(c + 1, col) && EntryValue(c + 1, col) == EntryValue(c, col) + 1
    ensures c == SWAP_MAP_MAX && col != [] ==>
      var r := [1] + col[1..];
      EntryNormal(COUNT_CONTINUED, r) && EntryValue(COUNT_CONTINUED, r) == EntryValue(c, col) + 1
    ensures c == SWAP_MAP_MAX + COUNT_CONTINUED && Increment(col).Some? ==>
      var r := Increment(col).value;
      EntryNormal(COUNT_CONTINUED, r) && EntryValue(COUNT_CONTINUED, r) == EntryValue(c, col) + 1
  {
    if c == SWAP_MAP_MAX + COUNT_CONTINUED && Increment(col).Some? {
      IncrementAddsOne(col);
    } else if c == SWAP_MAP_MAX && col != [] {
      assert ColumnValue([1] + col[1..]) == 1;
    }
  }

  /** Subtracting one from a count, with and without a borrow. */
  lemma CountDown(c: nat, col: seq<nat>)
    requires EntryNormal(c, col) && Bytes(col) && c < 256
    ensures c == COUNT_CONTINUED ==>
      var r := Decrement(col);
      var c' := if r.more then SWAP_MAP_MAX + COUNT_CONTINUED else SWAP_MAP_MAX;
      EntryNormal(c', r.col) && EntryValue(c', r.col) == EntryValue(c, col) - 1
    ensures Digit(c) > 0 ==>
      EntryNormal(c - 1, col) && EntryValue(c - 1, col) == EntryValue(c, col) - 1
    ensures EntryValue(c, col) == 0 <==> c == 0
  {
    if c == COUNT_CONTINUED {
      DecrementTakesOne(col);
      NormalPositive(col);
    } else if Continued(c) {
      NormalPositive(col);
    }
  }

  lemma CacheBit(c: nat, cache: bool)
    requires Digit(c) < SWAP_HAS_CACHE
    ensures Count(WithCache(c, cache)) == c && (HasCache(WithCache(c, cache)) <==> cache)
  {}

  /** A carry finds no room exactly when all digits on all pages are full. */
  lemma {:induction false} NoRoomIff(col: seq<nat>)
    requires Normal(col) && Bytes(col)
    ensures Increment(col).None? <==> forall i | 0 <= i < |col| :: col[i] == if i == |col| - 1 then 0x7f else 0xff
    decreases |col|
  {
    if |col| == 1 {
    } else {
      var rest := col[1..];
      assert rest[|rest| - 1] == col[|col| - 1];
      assert forall i | 0 <= i < |rest| :: rest[i] == col[i + 1];
      assert forall i | 1 <= i < |col| :: col[i] == rest[i - 1];
      if Continued(col[0]) {
        NoRoomIff(rest);
      }
    }
  }

  /** One more page is room enough for a carry that had none. */
  lemma {:induction false} PageMakesRoom(col: seq<nat>, b: nat)
    requires Normal(col) && Bytes(col) && Increment(col).None?
    ensures Increment(col + [b]).Some?
    decreases |col|
  {
    assert (col + [b])[1..] == col[1..] + [b];
    if Continued(col[0]) {
      assert Bytes(col[1..]);
      PageMakesRoom(col[1..], b);
    }
  }
}
