/** Words in an image: 32-bit values in either byte order, and byte reversal. */
module TplWords {
  import opened Sequences
  import opened Bytes

  const TWO_31: nat := 0x8000_0000
  const TWO_32: nat := 0x1_0000_0000

  /** The value of four bytes, least significant first. */
  function Little(s: bytes): (n: nat)
    requires |s| == 4
    ensures n < TWO_32
  {
    var a: int, b: int, c: int, d: int := s[0], s[1], s[2], s[3];
    a + 0x100 * b + 0x1_0000 * c + 0x100_0000 * d
  }

  function LittleBytes(n: nat): (s: bytes)
    requires n < TWO_32
    ensures |s| == 4
  {
    [n % 0x100, n / 0x100 % 0x100, n / 0x1_0000 % 0x100, n / 0x100_0000]
  }

  function GetU32(s: bytes, big: bool): (n: nat)
    requires |s| == 4
    ensures n < TWO_32
  {
    Little(if big then Reversed(s) else s)
  }

  function PutU32(n: nat, big: bool): (s: bytes)
    requires n < TWO_32
    ensures |s| == 4
  {
    if big then Reversed(LittleBytes(n)) else LittleBytes(n)
  }

  /** A word's bytes: the least significant one first, or last. */
  lemma WordBytes(n: nat, big: bool)
    requires n < TWO_32
    ensures PutU32(n, big) ==
            if big then [n / 0x100_0000, n / 0x1_0000 % 0x100, n / 0x100 % 0x100, n % 0x100]
            else [n % 0x100, n / 0x100 % 0x100, n / 0x1_0000 % 0x100, n / 0x100_0000]
  {
  }

  lemma WordMeans(w: bytes, big: bool)
    requires |w| == 4
    ensures GetU32(w, big) ==
            if big then 0x100_0000 * w[0] as int + 0x1_0000 * w[1] as int + 0x100 * w[2] as int + w[3] as int
            else w[0] as int + 0x100 * w[1] as int + 0x1_0000 * w[2] as int + 0x100_0000 * w[3] as int
  {
  }

  lemma LittleInverse(n: nat, s: bytes)
    requires n < TWO_32 && |s| == 4
    ensures Little(LittleBytes(n)) == n
    ensures LittleBytes(Little(s)) == s
  {
    hide Little, LittleBytes;
    LittleOfBytes(n);
    BytesOfLittle(s);
  }

  lemma LittleOfBytes(n: nat)
    requires n < TWO_32
    ensures Little(LittleBytes(n)) == n
  {
    Digits(n, 0x100);
    Digits(n / 0x100, 0x100);
    Digits(n / 0x1_0000, 0x100);
  }

  lemma Digits(n: nat, b: nat)
    requires b > 0
    ensures n == n % b + b * (n / b)
  {
  }

  lemma FourDigits(s0: int, s1: int, s2: int, s3: int)
    requires 0 <= s0 < 0x100 && 0 <= s1 < 0x100 && 0 <= s2 < 0x100 && 0 <= s3 < 0x100
    ensures var v := s0 + 0x100 * s1 + 0x1_0000 * s2 + 0x100_0000 * s3;
            v % 0x100 == s0 && v / 0x100 % 0x100 == s1 && v / 0x1_0000 % 0x100 == s2 && v / 0x100_0000 == s3
  {
    var b := s2 + 0x100 * s3;
    var a := s1 + 0x100 * b;
    var v := s0 + 0x100 * a;
    assert v / 0x100 == a && v / 0x1_0000 == b && v / 0x100_0000 == s3;
  }

  lemma BytesOfLittle(s: bytes)
    requires |s| == 4
    ensures LittleBytes(Little(s)) == s
  {
    var s0: int, s1: int, s2: int, s3: int := s[0], s[1], s[2], s[3];
    FourDigits(s0, s1, s2, s3);
    assert LittleBytes(Little(s)) == [s[0], s[1], s[2], s[3]] == s;
  }

  /** Writing and reading a word in one byte order are inverse to each other. */
  lemma U32Inverse(n: nat, s: bytes, big: bool)
    requires n < TWO_32 && |s| == 4
    ensures GetU32(PutU32(n, big), big) == n
    ensures PutU32(GetU32(s, big), big) == s
  {
    LittleInverse(n, if big then Reversed(s) else s);
    ReversedTwice(LittleBytes(n));
    ReversedTwice(s);
  }

  /** The other byte order is the reversed word. */
  lemma OtherOrder(n: nat, big: bool)
    requires n < TWO_32
    ensures PutU32(n, !big) == Reversed(PutU32(n, big))
  {
    ReversedTwice(LittleBytes(n));
  }

  /** Every block of sz bytes reversed. */
  function ReverseEach(s: bytes, sz: nat): (r: bytes)
    requires sz > 0
    ensures |r| == |s|
  {
    if |s| < sz then s else Reversed(s[..sz]) + ReverseEach(s[sz..], sz)
  }

  lemma {:induction false} ReverseEachTwice(s: bytes, sz: nat)
    requires sz > 0
    ensures ReverseEach(ReverseEach(s, sz), sz) == s
  {
    if |s| >= sz {
      var a, b := Reversed(s[..sz]), ReverseEach(s[sz..], sz);
      assert (a + b)[..sz] == a && (a + b)[sz..] == b;
      ReversedTwice(s[..sz]);
      ReverseEachTwice(s[sz..], sz);
    }
  }

  /** The bytes of an atom as the machine holds them, given the bytes as the image holds them. */
  function Native(s: bytes, sz: nat, swap: bool): (r: bytes)
    requires sz > 0
    ensures |r| == |s|
  {
    if swap then ReverseEach(s, sz) else s
  }

  /** Without swapping the bytes stand as they are; with it, byte j of each element stands at sz - 1 - j. */
  lemma NativeMeans(s: bytes, sz: nat, i: nat, j: nat)
    requires sz > 0 && i * sz + sz <= |s| && j < sz
    ensures Native(s, sz, false) == s
    ensures i * sz + j < |s| && Native(s, sz, true)[i * sz + j] == s[i * sz + (sz - 1 - j)]
  {
    ReversedElement(s, sz, i, j);
  }

  lemma {:induction false} ReversedElement(s: bytes, sz: nat, i: nat, j: nat)
    requires sz > 0 && i * sz + sz <= |s| && j < sz
    ensures i * sz + j < |s| && ReverseEach(s, sz)[i * sz + j] == s[i * sz + (sz - 1 - j)]
  {
    ReversedAt(s, sz, i, i * sz, j);
  }

  lemma {:induction false} ReversedAt(s: bytes, sz: nat, i: nat, p: nat, j: nat)
    requires sz > 0 && p == i * sz && p + sz <= |s| && j < sz
    ensures ReverseEach(s, sz)[p + j] == s[p + (sz - 1 - j)]
    decreases i
  {
    FirstReversed(s, sz);
    hide ReverseEach, Reversed;
    if i > 0 {
      var q := (i - 1) * sz;
      assert p == q + sz;
      ReversedAt(s[sz..], sz, i - 1, q, j);
      assert ReverseEach(s, sz)[sz..][q + j] == s[sz..][q + (sz - 1 - j)];
    }
  }

  lemma FirstReversed(s: bytes, sz: nat)
    requires 0 < sz <= |s|
    ensures ReverseEach(s, sz)[sz..] == ReverseEach(s[sz..], sz)
    ensures forall j | 0 <= j < sz :: ReverseEach(s, sz)[j] == s[sz - 1 - j]
  {
  }

  /** tpl_byteswap: the word is reversed in place. */
  method Byteswap(w: array<byte>, len: nat)
    requires len == w.Length
    modifies w
    ensures w[..] == Reversed(old(w[..]))
  {
    var i := 0;
    while i < len / 2
      invariant 0 <= i <= len / 2
      invariant forall k | 0 <= k < i :: w[k] == old(w[len - 1 - k]) && w[len - 1 - k] == old(w[k])
      invariant forall k | i <= k < len - i :: w[k] == old(w[k])
    {
      var c := w[i];
      w[i] := w[len - 1 - i];
      w[len - 1 - i] := c;
      i := i + 1;
    }
    assert forall k | 0 <= k < len :: w[k] == old(w[..])[len - 1 - k];
  }

  /** Copy a word out of the image, swap it if the image has the other byte order, and read it. */
  method ReadU32(text: bytes, pos: nat, big: bool, swap: bool) returns (n: nat)
    requires pos + 4 <= |text|
    ensures n == GetU32(text[pos..pos + 4], big != swap)
  {
    var w := new byte[4](i requires 0 <= i < 4 => text[pos + i]);
    ghost var s := text[pos..pos + 4];
    assert w[..] == s;
    if swap {
      Byteswap(w, 4);
      ReversedTwice(s);
    }
    n := GetU32(w[..], big);
  }

  /** Copy the elements of an atom out of the image, swapping each one if needed. */
  method ReadAtom(text: bytes, pos: nat, sz: nat, num: nat, swap: bool) returns (r: bytes)
    requires sz > 0 && pos + sz * num <= |text|
    ensures r == Native(text[pos..pos + sz * num], sz, swap)
  {
    if swap {
      r := ReadSwapped(text, pos, sz, num, pos + sz * num);
    } else {
      r := text[pos..pos + sz * num];
    }
  }

  /** n blocks of sz bytes lie between dv and end. */
  ghost predicate Blocks(dv: nat, end: nat, sz: nat, n: nat) {
    end == dv + sz * n
  }

  lemma BlocksAhead(dv: nat, end: nat, sz: nat, n: nat)
    requires Blocks(dv, end, sz, n)
    ensures if n == 0 then dv == end else dv + sz <= end && Blocks(dv + sz, end, sz, n - 1)
  {
    if n > 0 {
      BlockStep(sz, n - 1, n);
      ProductNonNegative(sz, n - 1);
    }
  }

  method ReadSwapped(text: bytes, pos: nat, sz: nat, num: nat, ghost end: nat) returns (r: bytes)
    requires sz > 0 && Blocks(pos, end, sz, num) && pos <= end <= |text|
    ensures r == ReverseEach(text[pos..end], sz)
  {
    hide ReverseEach, Reversed, Blocks;
    r := [];
    var fidx: nat, dv: nat := 0, pos;
    ghost var goal := ReverseEach(text[pos..end], sz);
    assert r + goal == goal;
    while fidx < num
      invariant 0 <= fidx <= num && dv <= end && Blocks(dv, end, sz, num - fidx)
      invariant r + ReverseEach(text[dv..end], sz) == goal
    {
      BlocksAhead(dv, end, sz, num - fidx);
      var w := new byte[sz](i requires 0 <= i < sz => text[dv + i]);
      assert w[..] == text[dv..dv + sz];
      FirstBlock(text, dv, end, sz);
      Byteswap(w, sz);
      r := r + w[..];
      dv := dv + sz;
      fidx := fidx + 1;
    }
    BlocksAhead(dv, end, sz, 0);
    NoBlock(text, end, sz);
    assert r + [] == r;
  }

  lemma FirstBlock(text: bytes, dv: nat, end: nat, sz: nat)
    requires sz > 0 && dv + sz <= end <= |text|
    ensures ReverseEach(text[dv..end], sz) == Reversed(text[dv..dv + sz]) + ReverseEach(text[dv + sz..end], sz)
  {
    assert text[dv..end][..sz] == text[dv..dv + sz] && text[dv..end][sz..] == text[dv + sz..end];
  }

  lemma NoBlock(text: bytes, end: nat, sz: nat)
    requires sz > 0 && end <= |text|
    ensures ReverseEach(text[end..end], sz) == []
  {
  }

  lemma BlockStep(sz: nat, k: nat, num: nat)
    requires k < num
    ensures sz * (k + 1) == sz * k + sz <= sz * num
  {
    var rest := num - k - 1;
    calc {
      sz * num;
      sz * (k + 1 + rest);
      sz * (k + 1) + sz * rest;
    }
    ProductNonNegative(sz, rest);
  }

  lemma ProductNonNegative(a: nat, b: nat)
    ensures a * b >= 0
  {
  }
}
