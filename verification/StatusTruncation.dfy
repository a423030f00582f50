/** Cutting a presence status to 300 bytes without splitting a UTF-8 character, FillStatus
    in examples/call/presencepushtask.cc.  Well-formed UTF-8 is that of section 4 of RFC 3629. */
module StatusTruncation {

  newtype Byte = b: int | 0 <= b < 256

  const LIMIT: nat := 300

  /** IsUtf8FirstByte: a single byte, or one of 0xC0..0xFD. */
  predicate IsFirstByte(b: Byte)
    ensures IsFirstByte(b) <==> b as int / 128 == 0 || (b as int - 0xC0) % 256 < 0x3E
  {
    b < 0x80 || 0xC0 <= b <= 0xFD
  }

  predicate Tail(b: Byte) { 0x80 <= b <= 0xBF }

  /** Bytes of the character a lead byte announces; 0 for a byte that leads nothing. */
  function Announced(b: Byte): (n: nat)
    ensures n <= 4 && (n > 0 ==> IsFirstByte(b))
  {
    if b <= 0x7F then 1
    else if 0xC2 <= b <= 0xDF then 2
    else if 0xE0 <= b <= 0xEF then 3
    else if 0xF0 <= b <= 0xF4 then 4
    else 0
  }

  /** The second byte allowed after a lead byte: no overlong forms, no surrogates, nothing
      above U+10FFFF. */
  predicate SecondAllowed(lead: Byte, second: Byte) {
    && Tail(second)
    && (lead == 0xE0 ==> 0xA0 <= second) && (lead == 0xED ==> second <= 0x9F)
    && (lead == 0xF0 ==> 0x90 <= second) && (lead == 0xF4 ==> second <= 0x8F)
  }

  /** Size of the well-formed character s begins with, or 0. */
  function CharSize(s: seq<Byte>): (n: nat)
    ensures n <= 4 && n <= |s|
    ensures n > 0 ==> IsFirstByte(s[0]) && forall i :: 1 <= i < n ==> Tail(s[i])
  {
    if s == [] then 0
    else
      var n := Announced(s[0]);
      if n == 0 || n > |s| then 0
      else if n >= 2 && !SecondAllowed(s[0], s[1]) then 0
      else if n >= 3 && !Tail(s[2]) then 0
      else if n == 4 && !Tail(s[3]) then 0
      else n
  }

  predicate ValidUtf8(s: seq<Byte>)
    decreases |s|
  {
    s == [] || (CharSize(s) > 0 && ValidUtf8(s[CharSize(s)..]))
  }

  // ---- well-formed is encoded ----

  /** What UTF-8 can carry: no surrogates, nothing above U+10FFFF. */
  predicate IsScalar(c: nat) { c < 0xD800 || 0xE000 <= c < 0x110000 }

  /** The table of section 3 of RFC 3629. */
  function Encode(c: nat): seq<Byte>
    requires IsScalar(c)
  {
    if c < 0x80 then [c as Byte]
    else if c < 0x800 then [(0xC0 + c / 64) as Byte, Last6(c)]
    else if c < 0x10000 then [(0xE0 + c / 4096) as Byte, Last6(c / 64), Last6(c)]
    else [(0xF0 + c / 262144) as Byte, Last6(c / 4096), Last6(c / 64), Last6(c)]
  }

  function Last6(c: nat): (b: Byte)
    ensures b as int == 0x80 + c % 64
  {
    (0x80 + c % 64) as Byte
  }

  function EncodeAll(cs: seq<nat>): seq<Byte>
    requires forall i :: 0 <= i < |cs| ==> IsScalar(cs[i])
  {
    if cs == [] then [] else Encode(cs[0]) + EncodeAll(cs[1..])
  }

  lemma EncodedIsChar(c: nat, t: seq<Byte>)
    requires IsScalar(c)
    ensures CharSize(Encode(c) + t) == |Encode(c)|
  {
    var s := Encode(c) + t;
    assert s[0] == Encode(c)[0];
    if 0x80 <= c { assert s[1] == Encode(c)[1]; }
    if 0x800 <= c { assert s[2] == Encode(c)[2]; }
  }

  lemma Digit64(x: nat, y: nat)
    requires y < 64
    ensures (x * 64 + y) / 64 == x && (x * 64 + y) % 64 == y
  {
  }

  lemma TwoBytes(a: nat, b: nat)
    requires 2 <= a < 32 && b < 64
    ensures var c := a * 64 + b; IsScalar(c) && Encode(c) == [(0xC0 + a) as Byte, (0x80 + b) as Byte]
  {
    Digit64(a, b);
  }

  lemma ThreeBytes(a: nat, b: nat, d: nat)
    requires a < 16 && b < 64 && d < 64 && (a == 0 ==> b >= 32) && (a == 13 ==> b < 32)
    ensures var c := (a * 64 + b) * 64 + d;
      IsScalar(c) && Encode(c) == [(0xE0 + a) as Byte, (0x80 + b) as Byte, (0x80 + d) as Byte]
  {
    Digit64(a, b);
    Digit64(a * 64 + b, d);
  }

  lemma FourBytes(a: nat, b: nat, d: nat, e: nat)
    requires a <= 4 && b < 64 && d < 64 && e < 64 && (a == 0 ==> b >= 16) && (a == 4 ==> b < 16)
    ensures var c := ((a * 64 + b) * 64 + d) * 64 + e;
      && IsScalar(c)
      && Encode(c) == [(0xF0 + a) as Byte, (0x80 + b) as Byte, (0x80 + d) as Byte, (0x80 + e) as Byte]
  {
    Digit64(a, b);
    Digit64(a * 64 + b, d);
    Digit64((a * 64 + b) * 64 + d, e);
  }

  /** The character of which s has the bytes in front. */
  lemma CharIsEncoded(s: seq<Byte>) returns (c: nat)
    requires CharSize(s) > 0
    ensures IsScalar(c) && s[..CharSize(s)] == Encode(c)
  {
    var n, lead := CharSize(s), s[0] as nat;
    if n == 1 {
      c := lead;
    } else if n == 2 {
      TwoBytes(lead - 0xC0, Low(s[1]));
      c := (lead - 0xC0) * 64 + Low(s[1]);
    } else if n == 3 {
      ThreeBytes(lead - 0xE0, Low(s[1]), Low(s[2]));
      c := ((lead - 0xE0) * 64 + Low(s[1])) * 64 + Low(s[2]);
    } else {
      FourBytes(lead - 0xF0, Low(s[1]), Low(s[2]), Low(s[3]));
      c := (((lead - 0xF0) * 64 + Low(s[1])) * 64 + Low(s[2])) * 64 + Low(s[3]);
    }
  }

  function Low(b: Byte): (n: nat)
    requires Tail(b)
    ensures n < 64
  {
    b as nat - 0x80
  }

  lemma {:induction false} EncodedIsValid(cs: seq<nat>)
    requires forall i :: 0 <= i < |cs| ==> IsScalar(cs[i])
    ensures ValidUtf8(EncodeAll(cs))
  {
    if cs != [] {
      var first, rest := Encode(cs[0]), EncodeAll(cs[1..]);
      EncodedIsChar(cs[0], rest);
      assert (first + rest)[|first|..] == rest;
      EncodedIsValid(cs[1..]);
    }
  }

  lemma {:induction false} ValidIsEncoded(s: seq<Byte>) returns (cs: seq<nat>)
    requires ValidUtf8(s)
    ensures (forall i :: 0 <= i < |cs| ==> IsScalar(cs[i])) && s == EncodeAll(cs)
    decreases |s|
  {
    cs := [];
    if s != [] {
      var n := CharSize(s);
      var c := CharIsEncoded(s);
      var rest := ValidIsEncoded(s[n..]);
      cs := [c] + rest;
      assert cs[1..] == rest && s == s[..n] + s[n..];
    }
  }

  /** A text is valid exactly when it encodes some sequence of characters. */
  lemma ValidIffEncoded(s: seq<Byte>)
    ensures ValidUtf8(s) <==>
      exists cs: seq<nat> :: (forall i :: 0 <= i < |cs| ==> IsScalar(cs[i])) && s == EncodeAll(cs)
  {
    if ValidUtf8(s) { var cs := ValidIsEncoded(s); }
    if cs: seq<nat> :| (forall i :: 0 <= i < |cs| ==> IsScalar(cs[i])) && s == EncodeAll(cs) {
      EncodedIsValid(cs);
    }
  }

  // ---- cuts ----

  /** The first character of a prefix is that of the whole, or is cut. */
  lemma CharSizeOfPrefix(s: seq<Byte>, k: nat)
    requires CharSize(s) > 0 && 0 < k <= |s|
    ensures CharSize(s[..k]) == if k >= CharSize(s) then CharSize(s) else 0
  {
    assert s[..k][0] == s[0];
  }

  /** Inside a valid text a cut is clean exactly in front of a first byte. */
  lemma {:induction false} CleanCut(s: seq<Byte>, k: nat)
    requires ValidUtf8(s) && k < |s|
    ensures ValidUtf8(s[..k]) <==> IsFirstByte(s[k])
    decreases |s|
  {
    var n := CharSize(s);
    if k > 0 {
      CharSizeOfPrefix(s, k);
      if k >= n {
        assert s[..k][n..] == s[n..][..k - n];
        CleanCut(s[n..], k - n);
      }
    }
  }

  /** Not more than three bytes lie between a position and the first byte at or before it. */
  lemma {:induction false} FirstByteNearby(s: seq<Byte>, k: nat) returns (j: nat)
    requires ValidUtf8(s) && k < |s|
    ensures j <= k <= j + 3 && IsFirstByte(s[j])
    decreases |s|
  {
    var n := CharSize(s);
    if k < n {
      j := 0;
    } else {
      var i := FirstByteNearby(s[n..], k - n);
      j := i + n;
    }
  }

  /** The longest prefix of at most 300 bytes that is itself valid UTF-8. */
  ghost predicate LongestValidPrefix(t: seq<Byte>, s: seq<Byte>) {
    && |t| <= 300 && t <= s && ValidUtf8(t)
    && forall k :: |t| < k <= 300 && k <= |s| ==> !ValidUtf8(s[..k])
  }

  /** What FillStatus stores for a status text.  Any text: the cut is in front of the last
      first byte at or before position 300, or at 0.  Valid text: the longest valid prefix,
      which loses at most three more bytes than the limit asks. */
  method Truncate(s: seq<Byte>) returns (t: seq<Byte>)
    ensures |s| <= 300 ==> t == s
    ensures |s| > 300 ==> |t| <= 300 && t == s[..|t|] && (|t| == 0 || IsFirstByte(s[|t|]))
    ensures |s| > 300 ==> forall k :: |t| < k <= 300 ==> !IsFirstByte(s[k])
    ensures ValidUtf8(s) ==> LongestValidPrefix(t, s)
    ensures ValidUtf8(s) && |s| > 300 ==> |t| >= 297
  {
    t := s;
    if |s| > LIMIT {
      var len := LIMIT;
      while !IsFirstByte(s[len]) && len > 0
        invariant 0 <= len <= LIMIT
        invariant forall k :: len < k <= LIMIT ==> !IsFirstByte(s[k])
        decreases len
      {
        len := len - 1;
      }
      t := s[..len];
      if ValidUtf8(s) {
        var j := FirstByteNearby(s, LIMIT);
        CleanCut(s, len);
        forall k | len < k <= LIMIT ensures !ValidUtf8(s[..k]) { CleanCut(s, k); }
      }
    } else if ValidUtf8(s) {
      assert s[..|s|] == s;
    }
  }
}
