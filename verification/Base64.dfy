/**
 libs/restinio/utils/base64.hpp: the base64 encoding of section 4 of RFC 4648. Both the
 raw data and the encoded text are sequences of bytes, as they are std::string there.
 */
module Base64 {
  import opened Wrappers

  type Byte = x: int | 0 <= x < 256
  type SixBits = x: int | 0 <= x < 64

  const PAD: Byte := 61    // '='

  // ------------------------------------------------------------------- tables

  function Alphabet(v: SixBits): (c: Byte) {
    if v < 26 then 65 + v                // A-Z
    else if v < 52 then 97 + (v - 26)    // a-z
    else if v < 62 then 48 + (v - 52)    // 0-9
    else if v == 62 then 43              // +
    else 47                              // /
  }

  /** The decode table: zero for whatever is not in the alphabet. */
  function Value(c: Byte): (v: SixBits) {
    if 65 <= c <= 90 then c - 65
    else if 97 <= c <= 122 then c - 97 + 26
    else if 48 <= c <= 57 then c - 48 + 52
    else if c == 43 then 62
    else if c == 47 then 63
    else 0
  }

  /** The character table, which counts the padding character in. */
  predicate IsBase64Char(c: Byte) {
    c == PAD || 65 <= c <= 90 || 97 <= c <= 122 || 48 <= c <= 57 || c == 43 || c == 47
  }

  predicate IsPlain(c: Byte) {
    c != PAD && IsBase64Char(c)
  }

  lemma {:induction false} TablesAreInverse(v: SixBits, c: Byte)
    ensures IsPlain(Alphabet(v)) && Value(Alphabet(v)) == v
    ensures IsPlain(c) <==> Alphabet(Value(c)) == c
  {
  }

  /** The table of section 4 of RFC 4648: A to Z, a to z, 0 to 9, then "+" and "/"; "=" pads. */
  lemma {:induction false} AlphabetInRuns(v: SixBits)
    ensures Alphabet(0) == 'A' as int && Alphabet(25) == 'Z' as int && Alphabet(26) == 'a' as int && Alphabet(51) == 'z' as int
    ensures Alphabet(52) == '0' as int && Alphabet(61) == '9' as int && Alphabet(62) == '+' as int && Alphabet(63) == '/' as int
    ensures v !in {25, 51, 61, 62, 63} ==> Alphabet(v + 1) == Alphabet(v) + 1
    ensures PAD == '=' as int
  {
  }

  // ----------------------------------------------------------- valid sequences

  function FirstPad(s: seq<Byte>): (k: nat)
    ensures k <= |s| && (k < |s| ==> s[k] == PAD)
    ensures forall j :: 0 <= j < k ==> s[j] != PAD
  {
    if s == [] || s[0] == PAD then 0 else 1 + FirstPad(s[1..])
  }

  /** At least four characters: two or more plain ones, then at most two of padding. */
  predicate IsValid(s: seq<Byte>) {
    var k := FirstPad(s);
    && |s| >= 4 && k >= 2 && |s| - k <= 2
    && (forall j :: 0 <= j < k ==> IsPlain(s[j]))
    && (forall j :: k <= j < |s| ==> s[j] == PAD)
  }

  datatype Expected = Base64Char | Base64CharOrPadding | Padding

  method IsValidBase64String(s: seq<Byte>) returns (r: bool)
    ensures r == IsValid(s)
  {
    if |s| < 4 { return false; }
    var expects := Base64Char;
    var charsFound, paddingsFound := 0, 0;
    ghost var k := FirstPad(s);
    for i := 0 to |s|
      invariant expects.Base64Char? ==> i == charsFound < 2 && paddingsFound == 0
      invariant expects.Base64CharOrPadding? ==> i >= 2 && paddingsFound == 0
      invariant !expects.Padding? ==> i <= k && forall j :: 0 <= j < i ==> IsPlain(s[j])
      invariant expects.Padding? ==> 2 <= k == i - paddingsFound && 1 <= paddingsFound <= 2
      invariant expects.Padding? ==> forall j :: 0 <= j < k ==> IsPlain(s[j])
      invariant expects.Padding? ==> forall j :: k <= j < i ==> s[j] == PAD
    {
      match expects
      case Base64Char =>
        if s[i] == PAD { return false; }
        if !IsBase64Char(s[i]) { return false; }
        charsFound := charsFound + 1;
        if charsFound >= 2 { expects := Base64CharOrPadding; }
      case Base64CharOrPadding =>
        if s[i] == PAD {
          expects := Padding;
          paddingsFound := paddingsFound + 1;
        } else if !IsBase64Char(s[i]) {
          return false;
        }
      case Padding =>
        if s[i] != PAD { return false; }
        paddingsFound := paddingsFound + 1;
        if paddingsFound > 2 { return false; }
    }
    return true;
  }

  // ------------------------------------------------------------------ encoding

  /** n_bits_from<char, Shift, 6>: shift, cut to a char, mask. */
  function SixBitsChar(bs: nat, unit: nat): (v: SixBits)
    requires unit > 0
  {
    (bs / unit) % 256 % 64
  }

  function Quad(bs: nat): (r: seq<Byte>)
    ensures |r| == 4
  {
    [Alphabet(SixBitsChar(bs, 0x40000)), Alphabet(SixBitsChar(bs, 0x1000)), Alphabet(SixBitsChar(bs, 0x40)), Alphabet(SixBitsChar(bs, 1))]
  }

  /** (at(i) << 16) | (at(i+1) << 8) | at(i+2), with zero for a byte that is not there. */
  function Group(a: Byte, b: Byte, c: Byte): (bs: nat) {
    a * 0x10000 + b * 0x100 + c
  }

  predicate Triples(s: seq<Byte>) {
    |s| % 3 == 0
  }

  predicate Quads(s: seq<Byte>) {
    |s| % 4 == 0
  }

  function EncodeGroups(s: seq<Byte>): (r: seq<Byte>)
    requires Triples(s)
  {
    if s == [] then []
    else
      var n := |s| - 3;
      EncodeGroups(s[..n]) + Quad(Group(s[n], s[n + 1], s[n + 2]))
  }

  function EncodeRest(s: seq<Byte>): (r: seq<Byte>)
    requires |s| < 3
    ensures |r| == if s == [] then 0 else 4
  {
    if |s| == 0 then []
    else if |s| == 1 then Quad(Group(s[0], 0, 0))[..2] + [PAD, PAD]
    else Quad(Group(s[0], s[1], 0))[..3] + [PAD]
  }

  function Whole(s: seq<Byte>): (n: nat)
    ensures n <= |s| && Triples(s[..n]) && |s| - n == |s| % 3
  {
    |s| - |s| % 3
  }

  function Encoded(s: seq<Byte>): (r: seq<Byte>) {
    EncodeGroups(s[..Whole(s)]) + EncodeRest(s[Whole(s)..])
  }

  lemma {:induction false} EncodeNothing()
    ensures Triples([]) && EncodeGroups([]) == []
  {
  }

  lemma {:induction false} EncodeGroupsStep(s: seq<Byte>, i: nat)
    requires i + 3 <= |s| && Triples(s[..i])
    ensures Triples(s[..i + 3])
    ensures EncodeGroups(s[..i + 3]) == EncodeGroups(s[..i]) + Quad(Group(s[i], s[i + 1], s[i + 2]))
  {
    hide Quad, Group;
    assert s[..i + 3][..i] == s[..i];
  }

  method Encode(s: seq<Byte>) returns (result: seq<Byte>)
    ensures result == Encoded(s)
  {
    hide Alphabet, SixBitsChar, Group, EncodeGroups;
    result := [];
    EncodeNothing();
    var i := 0;
    while i < Whole(s)
      invariant 0 <= i <= Whole(s) && Triples(s[..i])
      invariant result == EncodeGroups(s[..i])
    {
      EncodeGroupsStep(s, i);
      ghost var before := result;
      var bs := Group(s[i], s[i + 1], s[i + 2]);
      result := result + [Alphabet(SixBitsChar(bs, 0x40000))];
      result := result + [Alphabet(SixBitsChar(bs, 0x1000))];
      result := result + [Alphabet(SixBitsChar(bs, 0x40))];
      result := result + [Alphabet(SixBitsChar(bs, 1))];
      assert result == before + Quad(bs);
      i := i + 3;
    }
    var rest := EncodeRemaining(s[i..]);
    result := result + rest;
  }

  method EncodeRemaining(s: seq<Byte>) returns (result: seq<Byte>)
    requires |s| < 3
    ensures result == EncodeRest(s)
  {
    hide Alphabet, SixBitsChar, Group;
    result := [];
    if |s| != 0 {
      if |s| == 1 {
        var bs := Group(s[0], 0, 0);
        result := result + [Alphabet(SixBitsChar(bs, 0x40000))];
        result := result + [Alphabet(SixBitsChar(bs, 0x1000))];
        result := result + [PAD];
      } else {
        var bs := Group(s[0], s[1], 0);
        result := result + [Alphabet(SixBitsChar(bs, 0x40000))];
        result := result + [Alphabet(SixBitsChar(bs, 0x1000))];
        result := result + [Alphabet(SixBitsChar(bs, 0x40))];
      }
      result := result + [PAD];
    }
  }

  // ------------------------------------------------------------------ decoding

  /** n_bits_from<char, Shift> */
  function Octet(bs: nat, unit: nat): (r: Byte)
    requires unit > 0
  {
    bs / unit % 256
  }

  function DecodeQuad(a: Byte, b: Byte, c: Byte, d: Byte): (r: seq<Byte>) {
    var bs := ((Value(a) * 64 + Value(b)) * 64 + (if c == PAD then 0 else Value(c))) * 64 + (if d == PAD then 0 else Value(d));
    var paddings := (if c == PAD then 1 else 0) + (if d == PAD then 1 else 0);
    [Octet(bs, 0x10000)]
    + (if paddings < 2 then [Octet(bs, 0x100)] else [])
    + (if paddings < 1 then [Octet(bs, 1)] else [])
  }

  function Decoded(s: seq<Byte>): (r: seq<Byte>)
    requires Quads(s)
  {
    if s == [] then []
    else
      var n := |s| - 4;
      Decoded(s[..n]) + DecodeQuad(s[n], s[n + 1], s[n + 2], s[n + 3])
  }

  lemma {:induction false} DecodedStep(s: seq<Byte>, i: nat)
    requires i + 4 <= |s| && Quads(s[..i])
    ensures Quads(s[..i + 4])
    ensures Decoded(s[..i + 4]) == Decoded(s[..i]) + DecodeQuad(s[i], s[i + 1], s[i + 2], s[i + 3])
  {
    hide DecodeQuad;
    assert s[..i + 4][..i] == s[..i];
  }

  lemma {:induction false} DecodeNothing()
    ensures Quads([]) && Decoded([]) == []
  {
  }

  /** ReadOutOfRange is no error of the source: it stands for a read beyond the end of the text. */
  datatype DecodingError = InvalidBase64Sequence | ReadOutOfRange

  function DecodingOf(s: seq<Byte>): (r: Result<seq<Byte>, DecodingError>) {
    if !IsValid(s) then Err(InvalidBase64Sequence)
    else if !Quads(s) then Err(ReadOutOfRange)
    else Ok(Decoded(s))
  }

  /** Each turn of the loop reads a character and the three after it. */
  ghost predicate ReadsInRange(s: seq<Byte>) {
    forall i: nat :: i < |s| && Quads(s[..i]) ==> i + 3 < |s|
  }

  /** All reads are in range if and only if the text consists of whole groups, which the source does not check. */
  lemma {:induction false} InRangeIffQuads(s: seq<Byte>)
    ensures ReadsInRange(s) <==> Quads(s)
  {
    var i := |s| - |s| % 4;
    assert i < |s| ==> Quads(s[..i]) && i + 3 >= |s|;
  }

  /** "AAAAA" is such a text: it passes as valid, and its second group is read beyond the end. */
  lemma {:induction false} FiveCharactersAreReadOutOfRange()
    ensures var s: seq<Byte> := [65, 65, 65, 65, 65];
            IsValid(s) && !ReadsInRange(s) && DecodingOf(s) == Err(ReadOutOfRange)
  {
    var s: seq<Byte> := [65, 65, 65, 65, 65];
    InRangeIffQuads(s);
    assert IsPlain(65);
    assert s[..5] == s && AllPlain(s[..5]);
    PadsFrom(s, 5);
  }

  method TryDecode(s: seq<Byte>) returns (r: Result<seq<Byte>, DecodingError>)
    ensures r == DecodingOf(s)
    ensures r == Err(ReadOutOfRange) <==> IsValid(s) && !ReadsInRange(s)
  {
    hide Value, Octet, IsValid, Decoded;
    DecodeNothing();
    InRangeIffQuads(s);
    var valid := IsValidBase64String(s);
    if !valid { return Err(InvalidBase64Sequence); }
    var result: seq<Byte> := [];
    var i := 0;
    while i < |s|
      invariant 0 <= i <= |s| && Quads(s[..i])
      invariant result == Decoded(s[..i])
    {
      if i + 3 >= |s| { return Err(ReadOutOfRange); }
      DecodedStep(s, i);
      var bs: nat, paddingsFound := Value(s[i]), 0;
      bs := bs * 64 + Value(s[i + 1]);
      bs := bs * 64;
      if s[i + 2] == PAD { paddingsFound := paddingsFound + 1; } else { bs := bs + Value(s[i + 2]); }
      bs := bs * 64;
      if s[i + 3] == PAD { paddingsFound := paddingsFound + 1; } else { bs := bs + Value(s[i + 3]); }
      result := result + [Octet(bs, 0x10000)];
      if paddingsFound < 2 { result := result + [Octet(bs, 0x100)]; }
      if paddingsFound < 1 { result := result + [Octet(bs, 1)]; }
      i := i + 4;
    }
    assert s[..i] == s;
    return Ok(result);
  }

  // ------------------------------------------------------------------ one group

  lemma {:induction false} LowSixBits(high: nat, v: SixBits)
    ensures (high * 64 + v) % 256 % 64 == v
  {
    var n, low := high * 64 + v, (high % 4) * 64 + v;
    assert n == (high / 4) * 256 + low;
    assert n % 256 == low;
  }

  lemma {:induction false} SixBitsOf(bs: nat)
    requires bs < 0x1000000
    ensures bs == ((SixBitsChar(bs, 0x40000) * 64 + SixBitsChar(bs, 0x1000)) * 64 + SixBitsChar(bs, 0x40)) * 64 + SixBitsChar(bs, 1)
  {
    var x := bs / 0x40;
    var y := x / 0x40;
    assert y == bs / 0x1000 && y / 0x40 == bs / 0x40000;
    LowSixBits(x, bs % 0x40);
    LowSixBits(y, x % 0x40);
    LowSixBits(y / 0x40, y % 0x40);
    LowSixBits(0, y / 0x40);
  }

  lemma {:induction false} OctetsOf(a: Byte, b: Byte, c: Byte)
    ensures Octet(Group(a, b, c), 0x10000) == a && Octet(Group(a, b, c), 0x100) == b && Octet(Group(a, b, c), 1) == c
    ensures Group(a, b, c) < 0x1000000
  {
    var g := Group(a, b, c);
    assert g / 0x100 == a * 0x100 + b;
    assert (a * 0x100 + b) / 0x100 == a;
  }

  lemma {:induction false} QuadIsPlain(bs: nat)
    ensures forall j :: 0 <= j < 4 ==> IsPlain(Quad(bs)[j])
    ensures Value(Quad(bs)[0]) == SixBitsChar(bs, 0x40000) && Value(Quad(bs)[1]) == SixBitsChar(bs, 0x1000)
    ensures Value(Quad(bs)[2]) == SixBitsChar(bs, 0x40) && Value(Quad(bs)[3]) == SixBitsChar(bs, 1)
  {
    hide SixBitsChar;
    TablesAreInverse(SixBitsChar(bs, 0x40000), 0);
    TablesAreInverse(SixBitsChar(bs, 0x1000), 0);
    TablesAreInverse(SixBitsChar(bs, 0x40), 0);
    TablesAreInverse(SixBitsChar(bs, 1), 0);
  }

  lemma {:induction false} GroupRoundTrip(a: Byte, b: Byte, c: Byte)
    ensures var q := Quad(Group(a, b, c)); DecodeQuad(q[0], q[1], q[2], q[3]) == [a, b, c]
  {
    hide Quad, SixBitsChar, Group, Octet, Value;
    var bs := Group(a, b, c);
    OctetsOf(a, b, c);
    SixBitsOf(bs);
    QuadIsPlain(bs);
  }

  lemma {:induction false} RestRoundTrip(s: seq<Byte>)
    requires 0 < |s| < 3
    ensures var q := EncodeRest(s); DecodeQuad(q[0], q[1], q[2], q[3]) == s
  {
    hide Quad, Group, Value, Octet;
    var bs := if |s| == 1 then Group(s[0], 0, 0) else Group(s[0], s[1], 0);
    if |s| == 1 { OctetsOf(s[0], 0, 0); LowBitsAreZero(s[0], 0); } else { OctetsOf(s[0], s[1], 0); LowBitsAreZero(s[0], s[1]); }
    hide SixBitsChar;
    SixBitsOf(bs);
    QuadIsPlain(bs);
  }

  lemma {:induction false} LowBitsAreZero(a: Byte, b: Byte)
    ensures SixBitsChar(Group(a, b, 0), 1) == 0
    ensures b == 0 ==> SixBitsChar(Group(a, b, 0), 0x40) == 0
  {
    var g := Group(a, b, 0);
    assert g == (a * 0x100 + b) * 0x100;
    LowOctet(g, a * 0x100 + b, 0);
    if b == 0 {
      assert g == (a * 0x400) * 0x40 && g / 0x40 == a * 0x400;
      LowOctet(a * 0x400, a * 4, 0);
    }
  }

  // --------------------------------------------------------------- round trip

  predicate AllPlain(t: seq<Byte>) {
    forall j :: 0 <= j < |t| ==> IsPlain(t[j])
  }

  lemma {:induction false} DecodedAppend(t: seq<Byte>, q: seq<Byte>)
    requires Quads(t) && |q| == 4
    ensures Quads(t + q) && Decoded(t + q) == Decoded(t) + DecodeQuad(q[0], q[1], q[2], q[3])
  {
    hide DecodeQuad;
    assert (t + q)[..|t|] == t;
  }

  lemma {:induction false} LastTriple(s: seq<Byte>)
    requires Triples(s) && s != []
    ensures |s| >= 3 && Triples(s[..|s| - 3])
    ensures s == s[..|s| - 3] + [s[|s| - 3], s[|s| - 2], s[|s| - 1]]
  {
  }

  lemma {:induction false} GroupsRoundTrip(s: seq<Byte>)
    requires Triples(s)
    ensures Quads(EncodeGroups(s)) && Decoded(EncodeGroups(s)) == s
    ensures AllPlain(EncodeGroups(s))
    decreases |s|
  {
    hide Quad, Group, DecodeQuad, IsPlain, Decoded, Triples, Quads;
    if s == [] {
      DecodeNothing();
    } else {
      LastTriple(s);
      var n := |s| - 3;
      var bs := Group(s[n], s[n + 1], s[n + 2]);
      GroupsRoundTrip(s[..n]);
      GroupRoundTrip(s[n], s[n + 1], s[n + 2]);
      QuadIsPlain(bs);
      DecodedAppend(EncodeGroups(s[..n]), Quad(bs));
    }
  }

  /** Plain characters with padding behind are valid if and only if there are four or more, two of them plain, and at most two of padding. */
  lemma {:induction false} PadsFrom(s: seq<Byte>, k: nat)
    requires k <= |s|
    requires AllPlain(s[..k])
    requires forall j :: k <= j < |s| ==> s[j] == PAD
    ensures FirstPad(s) == k
    ensures IsValid(s) <==> |s| >= 4 && k >= 2 && |s| - k <= 2
  {
    var p := FirstPad(s);
    forall j | 0 <= j < k ensures IsPlain(s[j]) { assert IsPlain(s[..k][j]); }
    assert p < k ==> IsPlain(s[p]);
    assert k < |s| ==> s[k] == PAD;
  }

  /** How many padding characters an encoding of `n` bytes ends with. */
  function PadCount(n: nat): (p: nat)
    ensures p < 3 && (n + p) % 3 == 0
  {
    match n % 3
    case 0 => 0
    case 1 => 2
    case _ => 1
  }

  lemma {:induction false} RestShape(s: seq<Byte>, p: nat)
    requires 0 < |s| < 3 && p == 3 - |s|
    ensures |EncodeRest(s)| == 4
    ensures AllPlain(EncodeRest(s)[..4 - p])
    ensures forall j :: 4 - p <= j < 4 ==> EncodeRest(s)[j] == PAD
  {
    hide Quad, Group, IsPlain;
    QuadIsPlain(Group(s[0], if |s| == 2 then s[1] else 0, 0));
  }

  lemma {:induction false} GroupsLength(s: seq<Byte>)
    requires Triples(s)
    ensures |EncodeGroups(s)| * 3 == |s| * 4
    decreases |s|
  {
    hide Quad, Group, Triples;
    if s != [] {
      LastTriple(s);
      GroupsLength(s[..|s| - 3]);
    }
  }

  lemma {:induction false} PlainThenRest(t: seq<Byte>, q: seq<Byte>, p: nat)
    requires AllPlain(t) && |q| >= p && AllPlain(q[..|q| - p])
    ensures AllPlain((t + q)[..|t + q| - p])
  {
    hide IsPlain;
    assert (t + q)[..|t + q| - p] == t + q[..|q| - p];
  }

  /**
   Section 4 of RFC 4648: four characters for every three bytes begun, all of the alphabet
   except for none, one or two "=" at the very end; valid unless there was nothing to encode.
   */
  lemma {:induction false} EncodedShape(s: seq<Byte>)
    ensures Quads(Encoded(s)) && |Encoded(s)| * 3 == (|s| + PadCount(|s|)) * 4
    ensures FirstPad(Encoded(s)) == |Encoded(s)| - PadCount(|s|)
    ensures AllPlain(Encoded(s)[..FirstPad(Encoded(s))])
    ensures IsValid(Encoded(s)) <==> s != []
  {
    hide Quad, IsPlain, IsValid, FirstPad, EncodeGroups, EncodeRest, Group, Triples, Quads, AllPlain, Decoded, DecodeQuad;
    var n := Whole(s);
    var rest := s[n..];
    var e, p := Encoded(s), PadCount(|s|);
    GroupsRoundTrip(s[..n]);
    GroupsLength(s[..n]);
    if rest == [] {
      assert EncodeRest(rest) == [] && e == EncodeGroups(s[..n]);
      assert e[..|e| - p] == e;
    } else {
      RestShape(rest, p);
      PlainThenRest(EncodeGroups(s[..n]), EncodeRest(rest), p);
      DecodedAppend(EncodeGroups(s[..n]), EncodeRest(rest));
    }
    PadsFrom(e, |e| - p);
  }

  /** Decoding undoes encoding, for every sequence of bytes but the empty one, which encodes to nothing valid. */
  lemma {:induction false} RoundTrip(s: seq<Byte>)
    ensures Quads(Encoded(s))
    ensures DecodingOf(Encoded(s)) == Ok(s) <==> s != []
  {
    hide Quad, IsPlain, IsValid, FirstPad, EncodeGroups, Group, DecodeQuad, Decoded, Triples, Quads;
    var n := Whole(s);
    var rest := s[n..];
    EncodedShape(s);
    GroupsRoundTrip(s[..n]);
    assert s == s[..n] + rest;
    if rest != [] {
      RestRoundTrip(rest);
      DecodedAppend(EncodeGroups(s[..n]), EncodeRest(rest));
    } else {
      assert s[..n] == s && Encoded(s) == EncodeGroups(s[..n]);
    }
  }

  // -------------------------------------------------- what the encoding denotes

  /** The characters as the digits of a number to base 64, most significant first. */
  function Number64(t: seq<Byte>): (n: nat) {
    if t == [] then 0 else Number64(t[..|t| - 1]) * 64 + Value(t[|t| - 1])
  }

  /** The bytes as the digits of a number to base 256, most significant first. */
  function Number256(s: seq<Byte>): (n: nat) {
    if s == [] then 0 else Number256(s[..|s| - 1]) * 256 + s[|s| - 1]
  }

  lemma {:induction false} Number64Append(t: seq<Byte>, q: seq<Byte>)
    requires 2 <= |q| <= 4
    ensures var two := (Number64(t) * 64 + Value(q[0])) * 64 + Value(q[1]);
            Number64(t + q) == if |q| == 2 then two else if |q| == 3 then two * 64 + Value(q[2])
                               else (two * 64 + Value(q[2])) * 64 + Value(q[3])
  {
    hide Value;
    Number64Snoc(t, q, 0);
    Number64Snoc(t, q, 1);
    if |q| > 2 { Number64Snoc(t, q, 2); }
    if |q| > 3 { Number64Snoc(t, q, 3); }
    assert q[..|q|] == q;
  }

  lemma {:induction false} Number64Snoc(t: seq<Byte>, q: seq<Byte>, k: nat)
    requires k < |q|
    ensures Number64(t + q[..k + 1]) == Number64(t + q[..k]) * 64 + Value(q[k])
    ensures k == 0 ==> t + q[..k] == t
  {
    hide Value;
    assert (t + q[..k + 1])[..|t + q[..k + 1]| - 1] == t + q[..k];
  }

  lemma {:induction false} Number256Append(s: seq<Byte>, q: seq<Byte>)
    requires 1 <= |q| <= 3
    ensures var one := Number256(s) * 256 + q[0];
            Number256(s + q) == if |q| == 1 then one else if |q| == 2 then one * 256 + q[1]
                                else (one * 256 + q[1]) * 256 + q[2]
  {
    Number256Snoc(s, q, 0);
    if |q| > 1 { Number256Snoc(s, q, 1); }
    if |q| > 2 { Number256Snoc(s, q, 2); }
    assert q[..|q|] == q;
  }

  lemma {:induction false} Number256Snoc(s: seq<Byte>, q: seq<Byte>, k: nat)
    requires k < |q|
    ensures Number256(s + q[..k + 1]) == Number256(s + q[..k]) * 256 + q[k]
    ensures k == 0 ==> s + q[..k] == s
  {
    assert (s + q[..k + 1])[..|s + q[..k + 1]| - 1] == s + q[..k];
  }

  lemma {:induction false} GroupsKeepNumber(s: seq<Byte>)
    requires Triples(s)
    ensures Number64(EncodeGroups(s)) == Number256(s)
    decreases |s|
  {
    hide Quad, Value, Number64, Number256, Triples, SixBitsChar, Octet;
    if s == [] {
      NumbersOfNothing();
    } else {
      LastTriple(s);
      var n := |s| - 3;
      var bs := Group(s[n], s[n + 1], s[n + 2]);
      GroupsKeepNumber(s[..n]);
      OctetsOf(s[n], s[n + 1], s[n + 2]);
      SixBitsOf(bs);
      QuadIsPlain(bs);
      Number64Append(EncodeGroups(s[..n]), Quad(bs));
      Number256Append(s[..n], [s[n], s[n + 1], s[n + 2]]);
    }
  }

  lemma {:induction false} NumbersOfNothing()
    ensures Number64([]) == 0 && Number256([]) == 0
  {
  }

  /**
   The text before the padding denotes, to base 64, the same number as the data to base
   256, with the zero bits that fill up its last character.
   */
  lemma {:induction false} EncodingKeepsNumber(s: seq<Byte>)
    ensures Number64(Encoded(s)[..FirstPad(Encoded(s))]) ==
            Number256(s) * (match PadCount(|s|) case 0 => 1 case 1 => 4 case _ => 16)
  {
    hide Quad, Value, Number64, Number256, Triples, Quads, SixBitsChar, Octet, AllPlain, IsPlain, IsValid, FirstPad, EncodeGroups;
    var n := Whole(s);
    var rest := s[n..];
    var e, k := Encoded(s), FirstPad(Encoded(s));
    EncodedShape(s);
    GroupsKeepNumber(s[..n]);
    assert s == s[..n] + rest;
    if rest == [] {
      assert s[..n] == s && e[..k] == EncodeGroups(s[..n]);
    } else {
      var b := if |rest| == 2 then rest[1] else 0;
      var bs := Group(rest[0], b, 0);
      LowBitsAreZero(rest[0], b);
      OctetsOf(rest[0], b, 0);
      SixBitsOf(bs);
      QuadIsPlain(bs);
      assert e[..k] == EncodeGroups(s[..n]) + Quad(bs)[..|rest| + 1];
      Number64Append(EncodeGroups(s[..n]), Quad(bs)[..|rest| + 1]);
      Number256Append(s[..n], rest);
    }
  }

  // ------------------------------------------------- which texts are encodings

  lemma {:induction false} GroupOfOctets(bs: nat)
    requires bs < 0x1000000
    ensures Group(Octet(bs, 0x10000), Octet(bs, 0x100), Octet(bs, 1)) == bs
  {
    var x := bs / 0x100;
    assert x / 0x100 == bs / 0x10000;
  }

  lemma {:induction false} SixBitsOfDigits(a: SixBits, b: SixBits, c: SixBits, d: SixBits)
    ensures var bs := ((a * 64 + b) * 64 + c) * 64 + d;
            && bs < 0x1000000
            && SixBitsChar(bs, 0x40000) == a && SixBitsChar(bs, 0x1000) == b
            && SixBitsChar(bs, 0x40) == c && SixBitsChar(bs, 1) == d
  {
    var bs := ((a * 64 + b) * 64 + c) * 64 + d;
    assert bs / 0x40 == (a * 64 + b) * 64 + c;
    assert bs / 0x1000 == a * 64 + b;
    assert bs / 0x40000 == a;
    LowSixBits((a * 64 + b) * 64 + c, d);
    LowSixBits(a * 64 + b, c);
    LowSixBits(a, b);
    LowSixBits(0, a);
  }

  /** A text the decoder accepts whose unused last bits are zero. */
  predicate Canonical(t: seq<Byte>)
    requires IsValid(t)
  {
    var k := FirstPad(t);
    match |t| - k
    case 0 => true
    case 1 => Value(t[k - 1]) % 4 == 0
    case _ => Value(t[k - 1]) % 16 == 0
  }

  lemma {:induction false} PlainGroup(q: seq<Byte>)
    requires |q| == 4 && AllPlain(q)
    ensures var d := DecodeQuad(q[0], q[1], q[2], q[3]);
            |d| == 3 && Quad(Group(d[0], d[1], d[2])) == q
  {
    hide Octet, SixBitsChar, Group, Value, Alphabet;
    var bs := ((Value(q[0]) * 64 + Value(q[1])) * 64 + Value(q[2])) * 64 + Value(q[3]);
    SixBitsOfDigits(Value(q[0]), Value(q[1]), Value(q[2]), Value(q[3]));
    GroupOfOctets(bs);
    forall j | 0 <= j < 4 ensures Alphabet(Value(q[j])) == q[j] { TablesAreInverse(0, q[j]); }
  }

  lemma {:induction false} LastQuad(t: seq<Byte>)
    requires Quads(t) && t != []
    ensures |t| >= 4 && Quads(t[..|t| - 4]) && t == t[..|t| - 4] + t[|t| - 4..]
  {
  }

  lemma {:induction false} TripleAppend(s: seq<Byte>, q: seq<Byte>)
    requires Triples(s) && |q| == 3
    ensures Triples(s + q) && EncodeGroups(s + q) == EncodeGroups(s) + Quad(Group(q[0], q[1], q[2]))
  {
    hide Quad, Group;
    assert (s + q)[..|s|] == s;
  }

  lemma {:induction false} PlainRoundTrip(t: seq<Byte>)
    requires Quads(t) && AllPlain(t)
    ensures Triples(Decoded(t)) && EncodeGroups(Decoded(t)) == t
    decreases |t|
  {
    hide Quad, Group, DecodeQuad, IsPlain, EncodeGroups, Triples, Quads, Decoded;
    if t == [] {
      DecodeNothing();
      EncodeNothing();
    } else {
      LastQuad(t);
      var init, q := t[..|t| - 4], t[|t| - 4..];
      PlainRoundTrip(init);
      PlainGroup(q);
      DecodedAppend(init, q);
      TripleAppend(Decoded(init), DecodeQuad(q[0], q[1], q[2], q[3]));
    }
  }

  lemma {:induction false} LowOctet(bs: nat, rest: nat, low: Byte)
    requires bs == rest * 0x100 + low
    ensures Octet(bs, 1) == low
  {
  }

  lemma {:induction false} ZeroTwoBits(a: SixBits, b: SixBits, c: SixBits)
    ensures var bs := ((a * 64 + b) * 64 + c) * 64;
            Group(Octet(bs, 0x10000), Octet(bs, 0x100), 0) == ((a * 64 + b) * 64 + (c - c % 4)) * 64
  {
    var bs := ((a * 64 + b) * 64 + c) * 64;
    var r := (c % 4) * 64;
    assert bs == ((a * 64 + b) * 16 + c / 4) * 0x100 + r;
    LowOctet(bs, (a * 64 + b) * 16 + c / 4, r);
    hide Octet;
    GroupOfOctets(bs);
  }

  lemma {:induction false} HighOctet(bs: nat, high: Byte, low: nat)
    requires bs == high * 0x10000 + low && low < 0x10000
    ensures Octet(bs, 0x10000) == high
  {
  }

  lemma {:induction false} ZeroFourBits(a: SixBits, b: SixBits)
    ensures var bs := (a * 64 + b) * 64 * 64;
            Group(Octet(bs, 0x10000), 0, 0) == (a * 64 + (b - b % 16)) * 64 * 64
  {
    var bs := (a * 64 + b) * 64 * 64;
    var high, low := a * 4 + b / 16, (b % 16) * 0x1000;
    assert bs == high * 0x10000 + low;
    HighOctet(bs, high, low);
    hide Octet;
  }

  lemma {:induction false} PaddedOnce(q: seq<Byte>)
    requires |q| == 4 && AllPlain(q[..3]) && q[3] == PAD
    ensures var d := DecodeQuad(q[0], q[1], q[2], q[3]);
            |d| == 2 && (EncodeRest(d) == q <==> Value(q[2]) % 4 == 0)
  {
    hide Octet, SixBitsChar, Group, Value, Alphabet;
    forall j | 0 <= j < 3 ensures IsPlain(q[j]) { assert IsPlain(q[..3][j]); }
    var a, b, c := Value(q[0]), Value(q[1]), Value(q[2]);
    ZeroTwoBits(a, b, c);
    SixBitsOfDigits(a, b, c - c % 4, 0);
    TablesAreInverse(c - c % 4, q[0]);
    TablesAreInverse(c, q[1]);
    TablesAreInverse(c, q[2]);
  }

  lemma {:induction false} PaddedTwice(q: seq<Byte>)
    requires |q| == 4 && AllPlain(q[..2]) && q[2] == q[3] == PAD
    ensures var d := DecodeQuad(q[0], q[1], q[2], q[3]);
            |d| == 1 && (EncodeRest(d) == q <==> Value(q[1]) % 16 == 0)
  {
    hide Octet, SixBitsChar, Group, Value, Alphabet;
    forall j | 0 <= j < 2 ensures IsPlain(q[j]) { assert IsPlain(q[..2][j]); }
    var a, b := Value(q[0]), Value(q[1]);
    ZeroFourBits(a, b);
    SixBitsOfDigits(a, b - b % 16, 0, 0);
    TablesAreInverse(b - b % 16, q[0]);
    TablesAreInverse(b, q[1]);
  }

  lemma {:induction false} EncodedAppend(s: seq<Byte>, r: seq<Byte>)
    requires Triples(s) && 0 < |r| < 3
    ensures Encoded(s + r) == EncodeGroups(s) + EncodeRest(r)
    ensures Encoded(s) == EncodeGroups(s)
  {
    hide EncodeGroups, EncodeRest;
    assert Whole(s + r) == |s| && (s + r)[..|s|] == s && (s + r)[|s|..] == r;
    assert EncodeRest([]) == [] by { RestOfNothing(); }
    assert s[..Whole(s)] == s && s[Whole(s)..] == [];
  }

  lemma {:induction false} RestOfNothing()
    ensures EncodeRest([]) == []
  {
  }

  /** Of the whole groups the decoder accepts, encoding restores exactly the canonical ones. */
  lemma {:induction false} ReencodesIffCanonical(t: seq<Byte>)
    requires IsValid(t) && Quads(t)
    ensures Encoded(Decoded(t)) == t <==> Canonical(t)
  {
    hide IsPlain, EncodeGroups, EncodeRest, Quads, Triples, Decoded, DecodeQuad, Value, Encoded;
    var k := FirstPad(t);
    LastQuad(t);
    var init, q := t[..|t| - 4], t[|t| - 4..];
    PlainRoundTrip(init);
    DecodedAppend(init, q);
    var s, d := Decoded(init), DecodeQuad(q[0], q[1], q[2], q[3]);
    assert q[..4 - (|t| - k)] == t[|t| - 4..k];
    if k == |t| {
      PlainRoundTrip(t);
      EncodedAppend(Decoded(t), [0]);
    } else if k == |t| - 1 {
      PaddedOnce(q);
      EncodedAppend(s, d);
    } else {
      PaddedTwice(q);
      EncodedAppend(s, d);
    }
  }

  /** A text encodes the data `s` exactly when it is valid, in whole groups, canonical and decodes to `s`. */
  lemma {:induction false} IsEncodingOf(t: seq<Byte>, s: seq<Byte>)
    requires s != []
    ensures Encoded(s) == t <==> IsValid(t) && Quads(t) && Canonical(t) && Decoded(t) == s
  {
    hide IsValid, Quads, Canonical, Decoded, Encoded;
    EncodedShape(s);
    RoundTrip(s);
    ReencodesIffCanonical(Encoded(s));
    if IsValid(t) && Quads(t) { ReencodesIffCanonical(t); }
  }

  // ------------------------------------------------------------------ an example

  function Bytes(text: string): (s: seq<Byte>)
    requires forall i :: 0 <= i < |text| ==> text[i] < 128 as char
    ensures |s| == |text| && forall i :: 0 <= i < |text| ==> s[i] == text[i] as int
  {
    seq(|text|, i requires 0 <= i < |text| => text[i] as int)
  }

  lemma {:induction false} GroupsOfFooba()
    ensures Group(102, 111, 111) == 6713199 && Group(98, 97, 0) == 6447360
    ensures Quad(6713199) == [90, 109, 57, 118] && Quad(6447360)[..3] == [89, 109, 69]
  {
  }

  /** From section 10 of RFC 4648: "fooba" is "Zm9vYmE=". */
  lemma {:induction false} FoobaIsEncoded()
    ensures Encoded(Bytes("fooba")) == Bytes("Zm9vYmE=")
  {
    hide Quad, Group, EncodeGroups;
    var s := Bytes("fooba");
    assert Whole(s) == 3 && s[..3] == [102, 111, 111] && s[3..] == [98, 97];
    GroupsOfFooba();
    EncodeNothing();
    TripleAppend([], [102, 111, 111]);
    assert [] + [102, 111, 111] == s[..3];
    assert EncodeGroups([]) + Quad(6713199) == Quad(6713199);
    assert Encoded(s) == Quad(6713199) + (Quad(6447360)[..3] + [PAD]);
  }
}
