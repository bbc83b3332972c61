/** Octets, 32-bit words and the few sequence facts every component needs. */
module Bytes {
  type Byte = x: int | 0 <= x < 0x100

  type Word = x: int | 0 <= x < 0x1_0000_0000

  datatype Option<+T> = None | Some(value: T)

  /** All the parts, end to end. */
  function Concat<T>(parts: seq<seq<T>>): seq<T> {
    if parts == [] then [] else parts[0] + Concat(parts[1..])
  }

  lemma Assoc<T>(a: seq<T>, b: seq<T>, c: seq<T>)
    ensures (a + b) + c == a + (b + c)
  {
  }

  /** Two ways of cutting the same sequence in two. */
  lemma SameWhole<T>(x: seq<T>, y: seq<T>, a: seq<T>, b: seq<T>)
    requires x + y == a + b
    ensures if |x| >= |a| then x == a + x[|a|..] && b == x[|a|..] + y
            else a == x + a[|x|..] && y == a[|x|..] + b
  {
    var w := x + y;
    assert w[..|x|] == x && w[|x|..] == y && w[..|a|] == a && w[|a|..] == b;
    if |x| >= |a| {
      assert x[..|a|] == a;
    } else {
      assert a[..|x|] == x;
    }
  }

  lemma ConcatFirst<T>(a: seq<seq<T>>)
    requires a != []
    ensures Concat(a) == a[0] + Concat(a[1..])
    ensures Concat(a[..1]) == a[0]
  {
    assert a[..1] == [a[0]];
    assert Concat([a[0]]) == a[0] + Concat<T>([]);
  }

  lemma {:induction false} ConcatAppend<T>(a: seq<seq<T>>, b: seq<seq<T>>)
    ensures Concat(a + b) == Concat(a) + Concat(b)
  {
    if a == [] {
      assert a + b == b;
    } else {
      ConcatAppend(a[1..], b);
      assert (a + b)[1..] == a[1..] + b;
      Assoc(a[0], Concat(a[1..]), Concat(b));
    }
  }

  lemma ConcatSnoc<T>(a: seq<seq<T>>, last: seq<T>)
    ensures Concat(a + [last]) == Concat(a) + last
  {
    ConcatAppend(a, [last]);
    assert Concat([last]) == last + Concat([]);
  }

  function Zeros(n: nat): (z: seq<Byte>)
    ensures |z| == n
    ensures forall i :: 0 <= i < n ==> z[i] == 0
  {
    seq(n, _ => 0)
  }

  /** The little-endian word at i. */
  function WordAt(s: seq<Byte>, i: nat): Word
    requires i + 4 <= |s|
  {
    (s[i] as int) + 0x100 * (s[i + 1] as int) + 0x1_0000 * (s[i + 2] as int) + 0x100_0000 * (s[i + 3] as int)
  }

  function WordBytes(w: Word): (s: seq<Byte>)
    ensures |s| == 4
  {
    [w % 0x100, w / 0x100 % 0x100, w / 0x100 / 0x100 % 0x100, w / 0x100 / 0x100 / 0x100 % 0x100]
  }

  lemma BytesOfWord(w: Word)
    ensures w % 0x100 + 0x100 * (w / 0x100 % 0x100) + 0x1_0000 * (w / 0x100 / 0x100 % 0x100)
            + 0x100_0000 * (w / 0x100 / 0x100 / 0x100 % 0x100) == w
  {
  }

  lemma WordReadBack(w: Word)
    ensures WordAt(WordBytes(w), 0) == w
  {
    BytesOfWord(w);
  }

  lemma LowByte(b: Byte, q: nat)
    ensures (b + 0x100 * q) % 0x100 == b && (b + 0x100 * q) / 0x100 == q
  {
  }

  lemma BytesReadBack(s: seq<Byte>)
    requires |s| == 4
    ensures WordBytes(WordAt(s, 0)) == s
  {
    var q2 := s[2] + 0x100 * (s[3] as int);
    var q1 := s[1] + 0x100 * q2;
    LowByte(s[3], 0);
    LowByte(s[2], s[3]);
    LowByte(s[1], q2);
    LowByte(s[0], q1);
    assert WordAt(s, 0) == s[0] + 0x100 * q1;
  }

  lemma SliceOfSlice<T>(s: seq<T>, from: nat, to: nat, i: nat, j: nat)
    requires from <= to <= |s| && i <= j <= to - from
    ensures s[from..to][i..j] == s[from + i..from + j]
  {
    var w := s[from..to];
    assert forall k :: i <= k < j ==> w[i..j][k - i] == w[k] == s[from + i..from + j][k - i];
  }

  /** Bitwise and, on numbers of any width. */
  function BitAnd(x: nat, y: nat): nat {
    if x == 0 || y == 0 then 0
    else (if x % 2 == 1 && y % 2 == 1 then 1 else 0) + 2 * BitAnd(x / 2, y / 2)
  }

  lemma {:induction false} BitAndIsSmaller(x: nat, y: nat)
    ensures BitAnd(x, y) <= x && BitAnd(x, y) <= y
  {
    if x != 0 && y != 0 {
      BitAndIsSmaller(x / 2, y / 2);
    }
  }
}
