/** Octets and the 32-bit big-endian integers that both wire implementations put in a header. */
module Bytes {
  type byte = x: int | 0 <= x < 256
  type bytes = seq<byte>

  const WORD := 0x1_0000_0000

  /** Lexicographic order of octet strings. */
  predicate Less(a: bytes, b: bytes) {
    b != [] && (a == [] || a[0] < b[0] || (a[0] == b[0] && Less(a[1..], b[1..])))
  }

  lemma {:induction false} LessIrreflexive(a: bytes)
    ensures !Less(a, a)
  {
    if a != [] {
      LessIrreflexive(a[1..]);
    }
  }

  lemma {:induction false} LessTransitive(a: bytes, b: bytes, c: bytes)
    requires Less(a, b) && Less(b, c)
    ensures Less(a, c)
  {
    if a != [] && a[0] == b[0] == c[0] {
      LessTransitive(a[1..], b[1..], c[1..]);
    }
  }

  lemma {:induction false} LessTotal(a: bytes, b: bytes)
    ensures Less(a, b) || a == b || Less(b, a)
  {
    if a != [] && b != [] && a[0] == b[0] {
      LessTotal(a[1..], b[1..]);
      assert a == [a[0]] + a[1..] && b == [b[0]] + b[1..];
    }
  }

  /** One octet string comes before another where they first differ, or if it is a proper first part of it. */
  lemma {:induction false} LessIff(a: bytes, b: bytes)
    ensures Less(a, b) <==> exists i :: DiffersAt(a, b, i)
  {
    if a == [] && b != [] {
      assert DiffersAt(a, b, 0);
    } else if a != [] && b != [] {
      if a[0] != b[0] {
        assert a[0] < b[0] ==> DiffersAt(a, b, 0);
        assert forall i :: DiffersAt(a, b, i) && i > 0 ==> a[..i][0] == b[..i][0];
      } else {
        LessIff(a[1..], b[1..]);
        forall i ensures DiffersAt(a[1..], b[1..], i) <==> DiffersAt(a, b, i + 1) && i >= 0 {
          DiffersLater(a, b, i);
        }
        assert forall i :: DiffersAt(a, b, i) ==> i > 0 && DiffersAt(a[1..], b[1..], i - 1);
      }
    }
  }

  /** The strings agree before `i`, and there the first one ends or has the smaller octet. */
  predicate DiffersAt(a: bytes, b: bytes, i: int) {
    0 <= i <= |a| && i < |b| && a[..i] == b[..i] && (i == |a| || a[i] < b[i])
  }

  lemma DiffersLater(a: bytes, b: bytes, i: int)
    requires a != [] && b != [] && a[0] == b[0]
    ensures DiffersAt(a[1..], b[1..], i) <==> DiffersAt(a, b, i + 1) && i >= 0
  {
    if 0 <= i < |a| && i < |b| {
      assert a[..i + 1] == [a[0]] + a[1..][..i];
      assert b[..i + 1] == [b[0]] + b[1..][..i];
    }
  }

  /** What is left of a size when it is passed to `htonl`: its low 32 bits. */
  function Word32(n: nat): (w: nat)
    ensures w < WORD
    ensures w == n <==> n < WORD
    ensures (n - w) % WORD == 0
  {
    n % WORD
  }

  /** The four octets of a 32-bit word in network byte order (`htonl`). */
  function ToBigEndian(n: nat): (s: bytes)
    requires n < WORD
    ensures |s| == 4
  {
    [n / 0x100_0000, n / 0x1_0000 % 0x100, n / 0x100 % 0x100, n % 0x100]
  }

  /** The word that four octets in network byte order stand for (`ntohl`). */
  function FromBigEndian(s: bytes): (n: nat)
    requires |s| == 4
    ensures n < WORD
  {
    var a: int, b: int, c: int, d: int := s[0], s[1], s[2], s[3];
    a * 0x100_0000 + b * 0x1_0000 + c * 0x100 + d
  }

  /** `ntohl` undoes `htonl`. */
  lemma FromToBigEndian(n: nat)
    requires n < WORD
    ensures FromBigEndian(ToBigEndian(n)) == n
  {
    var q := n / 0x100;
    var r := q / 0x100;
    assert n / 0x1_0000 == r;
    assert n / 0x100_0000 == r / 0x100;
  }

  /** `htonl` undoes `ntohl`. */
  lemma ToFromBigEndian(s: bytes)
    requires |s| == 4
    ensures ToBigEndian(FromBigEndian(s)) == s
  {
    var n := FromBigEndian(s);
    var a: int, b: int, c: int := s[0], s[1], s[2];
    assert n / 0x1_0000 == a * 0x100 + b;
    assert n / 0x100 == (a * 0x100 + b) * 0x100 + c;
  }

  /** Network byte order: the larger of two words has the larger octets, from the first one on. */
  lemma BigEndianOrder(m: nat, n: nat)
    requires m < n < WORD
    ensures Less(ToBigEndian(m), ToBigEndian(n))
  {
    var a, b := ToBigEndian(m), ToBigEndian(n);
    FromToBigEndian(m);
    FromToBigEndian(n);
    var i := if a[0] != b[0] then 0 else if a[1] != b[1] then 1 else if a[2] != b[2] then 2 else 3;
    assert a[..i] == b[..i];
    assert DiffersAt(a, b, i);
    LessIff(a, b);
  }

  /** The octets of a word are its digits to the base 256, the most significant one first. */
  lemma BigEndianDigits(n: nat)
    requires n < WORD
    ensures var s := ToBigEndian(n);
      n == s[0] as int * 0x100_0000 + s[1] as int * 0x1_0000 + s[2] as int * 0x100 + s[3] as int
  {
    FromToBigEndian(n);
  }

  lemma Associate<T>(a: seq<T>, b: seq<T>, c: seq<T>)
    ensures a + b + c == a + (b + c)
  {}
}
