/** String and byte helpers standing in for `java.lang.String` methods. */
module Text {

  newtype byte = x: int | 0 <= x < 256

  /** `s.contains(sub)`, defined by scanning every start position. */
  predicate Contains(s: string, sub: string)
    decreases |s|
  {
    sub <= s || (|s| > 0 && Contains(s[1..], sub))
  }

  /** The independent reading of `Contains`: some window of `s` equals `sub`. */
  ghost predicate OccursAt(s: string, sub: string, i: int)
  {
    0 <= i && i + |sub| <= |s| && s[i..i + |sub|] == sub
  }

  /** A window of `s` equal to `sub` is found by the scan. */
  lemma {:induction false} OccursImpliesContains(s: string, sub: string, i: int)
    requires OccursAt(s, sub, i)
    ensures Contains(s, sub)
    decreases i
  {
    if i == 0 {
      assert s[..|sub|] == sub;
    } else {
      assert s[1..][i - 1..i - 1 + |sub|] == s[i..i + |sub|];
      OccursImpliesContains(s[1..], sub, i - 1);
    }
  }

  /** When the scan succeeds it has found a window of `s` equal to `sub`. */
  lemma {:induction false} ContainsOccurs(s: string, sub: string) returns (i: int)
    requires Contains(s, sub)
    ensures OccursAt(s, sub, i)
    decreases |s|
  {
    if sub <= s {
      i := 0;
      assert s[0..|sub|] == sub;
    } else {
      var j := ContainsOccurs(s[1..], sub);
      assert s[1..][j..j + |sub|] == s[j + 1..j + 1 + |sub|];
      i := j + 1;
    }
  }

  lemma ContainsIff(s: string, sub: string)
    ensures Contains(s, sub) <==> exists i :: OccursAt(s, sub, i)
  {
    if Contains(s, sub) {
      var i := ContainsOccurs(s, sub);
    }
    forall i | OccursAt(s, sub, i) ensures Contains(s, sub) {
      OccursImpliesContains(s, sub, i);
    }
  }

  /** The UTF-8 encoding of one Unicode scalar value. */
  function Utf8(c: char): (b: seq<byte>)
    ensures 1 <= |b| <= 4
    ensures |b| == 1 <==> (c as int) < 0x80
  {
    var n := c as int;
    if n < 0x80 then [n as byte]
    else if n < 0x800 then [(0xC0 + n / 64) as byte, (0x80 + n % 64) as byte]
    else if n < 0x10000 then
      [(0xE0 + n / 4096) as byte, (0x80 + (n / 64) % 64) as byte, (0x80 + n % 64) as byte]
    else
      [(0xF0 + n / 262144) as byte, (0x80 + (n / 4096) % 64) as byte,
       (0x80 + (n / 64) % 64) as byte, (0x80 + n % 64) as byte]
  }

  /** `String.getBytes()` under the UTF-8 default charset. */
  function GetBytes(s: string): (b: seq<byte>)
    ensures |s| <= |b| <= 4 * |s|
  {
    if s == [] then [] else Utf8(s[0]) + GetBytes(s[1..])
  }

  /** An ASCII-only string encodes to exactly one byte per character. */
  lemma {:induction false} AsciiLength(s: string)
    requires forall i :: 0 <= i < |s| ==> (s[i] as int) < 0x80
    ensures |GetBytes(s)| == |s|
  {
    if s != [] {
      AsciiLength(s[1..]);
    }
  }
}
