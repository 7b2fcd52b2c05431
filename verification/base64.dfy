// The hand-written base64 decoder of the HTTP inbound provider, against the padded encoding of section 4 of RFC 4648.
module Base64 {
  import opened Common

  /** A character outside the alphabet is reported; a group of four padding characters panics. */
  datatype Outcome = Decoded(bytes: seq<Byte>) | Invalid(c: Byte) | Trapped

  const PAD: Byte := '=' as int

  // --- the alphabet ------------------------------------------------------------------

  function Val(c: Byte): (v: Option<nat>)
    ensures v.Some? ==> v.value < 64
  {
    if 'A' as int <= c <= 'Z' as int then Some(c - 'A' as int)
    else if 'a' as int <= c <= 'z' as int then Some(c - 'a' as int + 26)
    else if '0' as int <= c <= '9' as int then Some(c - '0' as int + 52)
    else if c == '+' as int then Some(62)
    else if c == '/' as int then Some(63)
    else None
  }

  /** The character of a six-bit value (table 1 of RFC 4648). */
  function Letter(v: nat): (c: Byte)
    requires v < 64
    ensures Val(c) == Some(v) && c != PAD && !IsSpace(c)
  {
    if v < 26 then 'A' as int + v
    else if v < 52 then 'a' as int + (v - 26)
    else if v < 62 then '0' as int + (v - 52)
    else if v == 62 then '+' as int
    else '/' as int
  }

  /** Table 1 of RFC 4648: the capitals, the small letters, the digits, the plus and the slash, in this order. */
  lemma AlphabetIs(v: nat)
    requires v < 64
    ensures v < 26 ==> Letter(v) == 65 + v
    ensures 26 <= v < 52 ==> Letter(v) == 97 + (v - 26)
    ensures 52 <= v < 62 ==> Letter(v) == 48 + (v - 52)
    ensures (v == 62 ==> Letter(v) == 43) && (v == 63 ==> Letter(v) == 47) && PAD == 61
  {
  }

  lemma LetterOfVal(c: Byte)
    requires Val(c).Some?
    ensures Letter(Val(c).value) == c
  {
  }

  // --- encoding ------------------------------------------------------------------------

  /** Three bytes as one 24-bit number, and the six-bit digits of such a number. */
  function Pack(a: Byte, b: Byte, c: Byte): nat {
    a * 65536 + b * 256 + c
  }

  function Digit(n: nat, i: nat): (v: nat)
    requires i < 4
    ensures v < 64
  {
    if i == 0 then n / 262144 % 64 else if i == 1 then n / 4096 % 64 else if i == 2 then n / 64 % 64 else n % 64
  }

  function Encode(data: seq<Byte>): seq<Byte> {
    if data == [] then []
    else if |data| == 1 then
      var n := Pack(data[0], 0, 0);
      [Letter(Digit(n, 0)), Letter(Digit(n, 1)), PAD, PAD]
    else if |data| == 2 then
      var n := Pack(data[0], data[1], 0);
      [Letter(Digit(n, 0)), Letter(Digit(n, 1)), Letter(Digit(n, 2)), PAD]
    else
      var n := Pack(data[0], data[1], data[2]);
      [Letter(Digit(n, 0)), Letter(Digit(n, 1)), Letter(Digit(n, 2)), Letter(Digit(n, 3))] + Encode(data[3..])
  }

  // --- decoding ------------------------------------------------------------------------

  /** The bits of an encoded group are those of its bytes, most significant first. */
  lemma DigitsAreTheBits(a: Byte, b: Byte, c: Byte)
    ensures var n := Pack(a, b, c);
      && Digit(n, 0) == a / 4
      && Digit(n, 1) == a % 4 * 16 + b / 16
      && Digit(n, 2) == b % 16 * 4 + c / 64
      && Digit(n, 3) == c % 64
  {
    DigitsOf(a / 4, a % 4 * 16 + b / 16, b % 16 * 4 + c / 64, c % 64);
    BitsMakeThePack(a, b, c);
  }

  lemma BitsMakeThePack(a: Byte, b: Byte, c: Byte)
    ensures Pack(a, b, c) == a / 4 * 262144 + (a % 4 * 16 + b / 16) * 4096 + (b % 16 * 4 + c / 64) * 64 + c % 64
  {
    assert a == a / 4 * 4 + a % 4 && b == b / 16 * 16 + b % 16 && c == c / 64 * 64 + c % 64;
  }

  predicate IsSpace(c: Byte) {
    c == 32 || c == 9 || c == 10 || c == 12 || c == 13
  }

  /** ASCII whitespace is the blank, the tab, the line feed, the form feed and the carriage return. */
  lemma WhitespaceIs(c: Byte)
    ensures IsSpace(c) <==>
      c == ' ' as int || c == '\t' as int || c == '\n' as int || c == '\U{000C}' as int || c == '\r' as int
  {
  }

  function StripSpace(s: seq<Byte>): seq<Byte> {
    if s == [] then []
    else if IsSpace(s[|s| - 1]) then StripSpace(s[..|s| - 1])
    else StripSpace(s[..|s| - 1]) + [s[|s| - 1]]
  }

  predicate Acceptable(c: Byte) {
    c == PAD || Val(c).Some?
  }

  predicate AllAcceptable(s: seq<Byte>) {
    forall c | c in s :: Acceptable(c)
  }

  /** The six bits a character contributes: padding counts as zero. */
  function Bits(c: Byte): (v: nat)
    ensures v < 64
  {
    if Val(c).Some? then Val(c).value else 0
  }

  /** The accumulator after the characters of a group. */
  function Accumulate(chunk: seq<Byte>): nat {
    if chunk == [] then 0 else Accumulate(chunk[..|chunk| - 1]) * 64 + Bits(chunk[|chunk| - 1])
  }

  function Pads(chunk: seq<Byte>): (n: nat)
    ensures n <= |chunk|
  {
    if chunk == [] then 0 else Pads(chunk[..|chunk| - 1]) + if chunk[|chunk| - 1] == PAD then 1 else 0
  }

  /** The three bytes of the accumulator, of which as many are dropped as there are padding characters. */
  function Unpack(acc: nat): (b: seq<Byte>)
    ensures |b| == 3
  {
    [acc / 65536 % 256, acc / 256 % 256, acc % 256]
  }

  /** The first unacceptable character, if any. */
  function FirstInvalid(s: seq<Byte>): Option<Byte> {
    if s == [] then None else if Acceptable(s[0]) then FirstInvalid(s[1..]) else Some(s[0])
  }

  function DecodeGroup(chunk: seq<Byte>): Outcome {
    if FirstInvalid(chunk).Some? then Invalid(FirstInvalid(chunk).value)
    else if Pads(chunk) > 3 then Trapped
    else Decoded(Unpack(Accumulate(chunk))[..3 - Pads(chunk)])
  }

  function GroupLength(s: seq<Byte>): nat {
    if |s| < 4 then |s| else 4
  }

  /** The decoder on text without whitespace, group by group. */
  function DecodeGroups(s: seq<Byte>): Outcome {
    if s == [] then Decoded([])
    else
      var k := GroupLength(s);
      Prepend(DecodeGroup(s[..k]), DecodeGroups(s[k..]))
  }

  function Prepend(first: Outcome, rest: Outcome): Outcome {
    if first.Decoded? && rest.Decoded? then Decoded(first.bytes + rest.bytes)
    else if first.Decoded? then rest
    else first
  }

  /** What the decoder makes of a text. */
  function Decode(input: seq<Byte>): Outcome {
    DecodeGroups(StripSpace(input))
  }

  lemma {:induction false} FirstInvalidFound(s: seq<Byte>, k: nat)
    requires k < |s| && AllAcceptable(s[..k]) && !Acceptable(s[k])
    ensures FirstInvalid(s) == Some(s[k])
  {
    if k > 0 {
      assert s[..k] == [s[0]] + s[1..][..k - 1];
      FirstInvalidFound(s[1..], k - 1);
    }
  }

  lemma {:induction false} NoneInvalid(s: seq<Byte>)
    ensures FirstInvalid(s).None? <==> AllAcceptable(s)
  {
    if s != [] {
      NoneInvalid(s[1..]);
      assert s == [s[0]] + s[1..];
    }
  }

  /** `base64_decode`: filter the whitespace, then decode four characters at a time through an accumulator. */
  method Base64Decode(text: seq<Byte>) returns (r: Outcome)
    ensures r == Decode(text)
  {
    var input := StripSpace(text);
    var out: seq<Byte> := [];
    var from := 0;
    assert input[0..] == input;
    while from < |input|
      invariant from <= |input|
      invariant DecodeGroups(input) == Prepend(Decoded(out), DecodeGroups(input[from..]))
    {
      var k := GroupLength(input[from..]);
      GroupStep(input, from);
      var group := DecodeChunk(input[from..from + k]);
      PrependTwice(out, group, DecodeGroups(input[from + k..]));
      if !group.Decoded? {
        return group;
      }
      out := out + group.bytes;
      from := from + k;
    }
    return Decoded(out);
  }

  lemma GroupStep(input: seq<Byte>, from: nat)
    requires from < |input|
    ensures var k := GroupLength(input[from..]);
      DecodeGroups(input[from..]) == Prepend(DecodeGroup(input[from..from + k]), DecodeGroups(input[from + k..]))
  {
    var k := GroupLength(input[from..]);
    assert input[from..][..k] == input[from..from + k] && input[from..][k..] == input[from + k..];
  }

  lemma PrependTwice(out: seq<Byte>, group: Outcome, rest: Outcome)
    ensures Prepend(Decoded(out), Prepend(group, rest)) ==
      if group.Decoded? then Prepend(Decoded(out + group.bytes), rest) else group
  {
    if group.Decoded? && rest.Decoded? {
      assert out + (group.bytes + rest.bytes) == out + group.bytes + rest.bytes;
    }
  }

  /** One group: count the padding, accumulate six bits a character, keep the bytes the padding leaves. */
  method DecodeChunk(chunk: seq<Byte>) returns (r: Outcome)
    requires |chunk| <= 4
    ensures r == DecodeGroup(chunk)
  {
    var pad := 0;
    for i := 0 to |chunk|
      invariant pad == Pads(chunk[..i])
    {
      assert chunk[..i + 1][..i] == chunk[..i];
      if chunk[i] == PAD {
        pad := pad + 1;
      }
    }
    assert chunk[..|chunk|] == chunk;
    var acc := 0;
    for i := 0 to |chunk|
      invariant acc == Accumulate(chunk[..i]) && AllAcceptable(chunk[..i])
    {
      assert chunk[..i + 1][..i] == chunk[..i];
      if chunk[i] != PAD && Val(chunk[i]).None? {
        FirstInvalidFound(chunk, i);
        return Invalid(chunk[i]);
      }
      acc := acc * 64 + Bits(chunk[i]);
    }
    NoneInvalid(chunk);
    if pad > 3 {
      return Trapped;
    }
    return Decoded(Unpack(acc)[..3 - pad]);
  }

  // --- groups of four ---------------------------------------------------------------------

  lemma AccumulateFour(c: seq<Byte>)
    requires |c| == 4
    ensures Accumulate(c) == Bits(c[0]) * 262144 + Bits(c[1]) * 4096 + Bits(c[2]) * 64 + Bits(c[3])
  {
    AccumulateThree(c[..3]);
  }

  lemma AccumulateThree(c: seq<Byte>)
    requires |c| == 3
    ensures Accumulate(c) == Bits(c[0]) * 4096 + Bits(c[1]) * 64 + Bits(c[2])
  {
    assert c[..2][..1] == [c[0]] && [c[0]][..0] == [];
    assert Accumulate([c[0]]) == Bits(c[0]);
    assert Accumulate(c[..2]) == Accumulate([c[0]]) * 64 + Bits(c[1]);
  }

  lemma PadsOfFour(c: seq<Byte>)
    requires |c| == 4
    ensures Pads(c) == (if c[0] == PAD then 1 else 0) + (if c[1] == PAD then 1 else 0)
      + (if c[2] == PAD then 1 else 0) + (if c[3] == PAD then 1 else 0)
  {
    assert c[..3][..2] == c[..2] && c[..2][..1] == [c[0]] && [c[0]][..0] == [];
    assert Pads([c[0]]) == if c[0] == PAD then 1 else 0;
    assert Pads(c[..2]) == Pads([c[0]]) + if c[1] == PAD then 1 else 0;
    assert Pads(c[..3]) == Pads(c[..2]) + if c[2] == PAD then 1 else 0;
  }

  /** The digits padding cuts off are zero, and so are the cut-off bits of the last digit kept. */
  lemma CutOffDigits(a: Byte, b: Byte)
    ensures var n := Pack(a, b, 0); Digit(n, 3) == 0 && Digit(n, 2) % 4 == 0
    ensures var n := Pack(a, 0, 0); Digit(n, 3) == 0 && Digit(n, 2) == 0 && Digit(n, 1) % 16 == 0
  {
    DigitsOf(a / 4, a % 4 * 16 + b / 16, b % 16 * 4, 0);
    DigitsOf(a / 4, a % 4 * 16, 0, 0);
  }

  lemma DigitsRecompose(n: nat)
    requires n < 16777216
    ensures n == Digit(n, 0) * 262144 + Digit(n, 1) * 4096 + Digit(n, 2) * 64 + Digit(n, 3)
  {
    assert n / 4096 == n / 262144 * 64 + n / 4096 % 64;
    assert n / 64 == n / 4096 * 64 + n / 64 % 64;
  }

  lemma UnpackPack(a: Byte, b: Byte, c: Byte)
    ensures Pack(a, b, c) < 16777216 && Unpack(Pack(a, b, c)) == [a, b, c]
  {
    var n := Pack(a, b, c);
    assert n / 256 == a * 256 + b;
    assert n / 65536 == a;
  }

  /** A group whose characters carry the digits of `n` decodes to the bytes of `n` that its padding leaves. */
  lemma GroupOfDigits(n: nat, g: seq<Byte>)
    requires n < 16777216 && |g| == 4 && AllAcceptable(g) && Pads(g) <= 3
    requires forall i: nat | i < 4 :: Bits(g[i]) == Digit(n, i)
    ensures DecodeGroup(g) == Decoded(Unpack(n)[..3 - Pads(g)])
  {
    AccumulateFour(g);
    DigitsRecompose(n);
    NoneInvalid(g);
  }

  lemma FullGroupDecodes(a: Byte, b: Byte, c: Byte)
    ensures var n := Pack(a, b, c);
      DecodeGroup([Letter(Digit(n, 0)), Letter(Digit(n, 1)), Letter(Digit(n, 2)), Letter(Digit(n, 3))])
      == Decoded([a, b, c])
  {
    var n := Pack(a, b, c);
    var g := [Letter(Digit(n, 0)), Letter(Digit(n, 1)), Letter(Digit(n, 2)), Letter(Digit(n, 3))];
    UnpackPack(a, b, c);
    PadsOfFour(g);
    GroupOfDigits(n, g);
  }

  lemma TwoByteGroupDecodes(a: Byte, b: Byte)
    ensures var n := Pack(a, b, 0);
      DecodeGroup([Letter(Digit(n, 0)), Letter(Digit(n, 1)), Letter(Digit(n, 2)), PAD]) == Decoded([a, b])
  {
    var n := Pack(a, b, 0);
    var g := [Letter(Digit(n, 0)), Letter(Digit(n, 1)), Letter(Digit(n, 2)), PAD];
    UnpackPack(a, b, 0);
    CutOffDigits(a, b);
    PadsOfFour(g);
    GroupOfDigits(n, g);
  }

  lemma OneByteGroupDecodes(a: Byte)
    ensures var n := Pack(a, 0, 0);
      DecodeGroup([Letter(Digit(n, 0)), Letter(Digit(n, 1)), PAD, PAD]) == Decoded([a])
  {
    var n := Pack(a, 0, 0);
    var g := [Letter(Digit(n, 0)), Letter(Digit(n, 1)), PAD, PAD];
    UnpackPack(a, 0, 0);
    CutOffDigits(a, 0);
    PadsOfFour(g);
    GroupOfDigits(n, g);
  }

  // --- main results ----------------------------------------------------------------------------

  /** Decoding a full group in front of a text, or a shorter one at its end. */
  lemma GroupInFront(group: seq<Byte>, rest: seq<Byte>, bytes: seq<Byte>, tail: seq<Byte>)
    requires |group| == 4 || (1 <= |group| < 4 && rest == [])
    requires DecodeGroup(group) == Decoded(bytes) && DecodeGroups(rest) == Decoded(tail)
    ensures DecodeGroups(group + rest) == Decoded(bytes + tail)
  {
    var k := |group|;
    assert (group + rest)[..k] == group && (group + rest)[k..] == rest;
  }

  /** The encoding of some data is a group that decodes to its first bytes, in front of the encoding of the others. */
  lemma FirstGroup(data: seq<Byte>) returns (group: seq<Byte>, k: nat)
    requires data != []
    ensures 1 <= k <= |data| && |group| == 4 && DecodeGroup(group) == Decoded(data[..k])
    ensures Encode(data) == group + Encode(data[k..])
  {
    if |data| == 1 {
      OneByteGroupDecodes(data[0]);
      group, k := Encode(data), 1;
      assert data[..1] == [data[0]] && data[1..] == [] && group + [] == group;
    } else if |data| == 2 {
      TwoByteGroupDecodes(data[0], data[1]);
      group, k := Encode(data), 2;
      assert data[..2] == [data[0], data[1]] && data[2..] == [] && group + [] == group;
    } else {
      var n := Pack(data[0], data[1], data[2]);
      FullGroupDecodes(data[0], data[1], data[2]);
      group, k := [Letter(Digit(n, 0)), Letter(Digit(n, 1)), Letter(Digit(n, 2)), Letter(Digit(n, 3))], 3;
      assert data[..3] == [data[0], data[1], data[2]];
    }
  }

  lemma {:induction false} GroupsInvertEncode(data: seq<Byte>)
    ensures DecodeGroups(Encode(data)) == Decoded(data)
  {
    if data != [] {
      var group, k := FirstGroup(data);
      GroupsInvertEncode(data[k..]);
      GroupInFront(group, Encode(data[k..]), data[..k], data[k..]);
      assert data == data[..k] + data[k..];
    }
  }

  /** The decoder gives back every byte sequence from its padded encoding, with whitespace inserted anywhere. */
  lemma DecodeInvertsEncode(data: seq<Byte>, text: seq<Byte>)
    requires StripSpace(text) == Encode(data)
    ensures Decode(text) == Decoded(data)
  {
    GroupsInvertEncode(data);
  }

  /** The decoder inverts the encoder. */
  lemma EncodingDecodes(data: seq<Byte>)
    ensures Decode(Encode(data)) == Decoded(data)
  {
    EncodingHasNoSpace(data);
    DecodeInvertsEncode(data, Encode(data));
  }

  lemma {:induction false} EncodingHasNoSpace(data: seq<Byte>)
    ensures StripSpace(Encode(data)) == Encode(data)
  {
    EncodedCharsAreAcceptable(data);
    NothingToStrip(Encode(data));
  }

  lemma {:induction false} EncodedCharsAreAcceptable(data: seq<Byte>)
    ensures AllAcceptable(Encode(data))
  {
    if |data| > 2 {
      EncodedCharsAreAcceptable(data[3..]);
    }
  }

  lemma {:induction false} NothingToStrip(s: seq<Byte>)
    requires AllAcceptable(s)
    ensures StripSpace(s) == s
  {
    if s != [] {
      assert Acceptable(s[|s| - 1]);
      NothingToStrip(s[..|s| - 1]);
    }
  }

  /** Inserting whitespace anywhere changes nothing. */
  lemma {:induction false} SpaceIsIgnored(before: seq<Byte>, c: Byte, after: seq<Byte>)
    requires IsSpace(c)
    ensures Decode(before + [c] + after) == Decode(before + after)
  {
    StripConcat(before + [c], after);
    StripConcat(before, [c]);
    StripConcat(before, after);
    assert StripSpace([c]) == [];
  }

  lemma {:induction false} StripConcat(a: seq<Byte>, b: seq<Byte>)
    ensures StripSpace(a + b) == StripSpace(a) + StripSpace(b)
  {
    if b == [] {
      assert a + b == a;
    } else {
      assert (a + b)[..|a + b| - 1] == a + b[..|b| - 1];
      StripConcat(a, b[..|b| - 1]);
    }
  }

  /** A group of four padding characters starting at a multiple of four. */
  predicate PadGroupAt(s: seq<Byte>, k: nat) {
    k % 4 == 0 && k + 4 <= |s| && s[k..k + 4] == [PAD, PAD, PAD, PAD]
  }

  lemma OnlyFourPadsTrap(chunk: seq<Byte>)
    requires |chunk| <= 4 && AllAcceptable(chunk)
    ensures DecodeGroup(chunk) == Trapped <==> chunk == [PAD, PAD, PAD, PAD]
    ensures !DecodeGroup(chunk).Invalid?
  {
    NoneInvalid(chunk);
    if |chunk| == 4 {
      PadsOfFour(chunk);
    }
  }

  /** Some aligned group is all padding and every character before it is acceptable. */
  ghost predicate HitsPadGroup(s: seq<Byte>) {
    exists k: nat :: PadGroupAt(s, k) && AllAcceptable(s[..k])
  }

  lemma HitAfterGroup(s: seq<Byte>)
    requires |s| >= 4 && AllAcceptable(s[..4]) && !PadGroupAt(s, 0)
    ensures HitsPadGroup(s) <==> HitsPadGroup(s[4..])
  {
    if HitsPadGroup(s[4..]) {
      HitMovesUp(s);
    }
    if HitsPadGroup(s) {
      HitMovesDown(s);
    }
  }

  lemma HitMovesUp(s: seq<Byte>)
    requires |s| >= 4 && AllAcceptable(s[..4]) && HitsPadGroup(s[4..])
    ensures HitsPadGroup(s)
  {
    var k: nat :| PadGroupAt(s[4..], k) && AllAcceptable(s[4..][..k]);
    ShiftedGroup(s, k);
    assert PadGroupAt(s, k + 4);
  }

  lemma HitMovesDown(s: seq<Byte>)
    requires |s| >= 4 && HitsPadGroup(s) && !PadGroupAt(s, 0)
    ensures HitsPadGroup(s[4..])
  {
    var k: nat :| PadGroupAt(s, k) && AllAcceptable(s[..k]);
    ShiftedGroup(s, k - 4);
    assert PadGroupAt(s[4..], k - 4);
    assert forall c | c in s[4..][..k - 4] :: c in s[..k];
  }

  lemma ShiftedGroup(s: seq<Byte>, k: nat)
    requires k + 8 <= |s|
    ensures s[k + 4..k + 8] == s[4..][k..k + 4] && s[..k + 4] == s[..4] + s[4..][..k]
  {
  }

  lemma NoHitAfterInvalid(s: seq<Byte>, i: nat)
    requires i < |s| && i < 4 && !Acceptable(s[i])
    ensures !HitsPadGroup(s)
  {
    forall k: nat | PadGroupAt(s, k)
      ensures !AllAcceptable(s[..k])
    {
      PadGroupChars(s, k);
      assert s[..k][i] == s[i];
    }
  }

  lemma PadGroupChars(s: seq<Byte>, k: nat)
    requires PadGroupAt(s, k)
    ensures forall i | k <= i < k + 4 :: s[i] == PAD
  {
    forall i | k <= i < k + 4
      ensures s[i] == PAD
    {
      assert s[k..k + 4][i - k] == s[i];
    }
  }

  /** The decoder traps on a text without whitespace exactly when it hits a group that is all padding. */
  lemma {:induction false} TrapsExactlyOnPadGroups(s: seq<Byte>)
    ensures DecodeGroups(s) == Trapped <==> HitsPadGroup(s)
  {
    if s != [] {
      var g := GroupLength(s);
      TrapsExactlyOnPadGroups(s[g..]);
      NoneInvalid(s[..g]);
      if !AllAcceptable(s[..g]) {
        var i: nat :| i < g && !Acceptable(s[..g][i]);
        NoHitAfterInvalid(s, i);
      } else {
        OnlyFourPadsTrap(s[..g]);
        if |s| < 4 {
          assert s[g..] == [];
        } else if PadGroupAt(s, 0) {
          assert s[..4] == s[0..4] && s[..0] == [];
        } else {
          assert s[..4] == s[0..4];
          HitAfterGroup(s);
        }
      }
    }
  }

  /** The text "====" traps. */
  lemma PadGroupTraps()
    ensures Decode([PAD, PAD, PAD, PAD]) == Trapped
  {
    var text := [PAD, PAD, PAD, PAD];
    NothingToStrip(text);
    assert PadGroupAt(text, 0);
    TrapsExactlyOnPadGroups(text);
  }

  /** The encoding of one or two bytes without its padding, such as "QQ" for [65], is accepted and decodes to three
      bytes. */
  lemma PaddingIsNeeded(data: seq<Byte>)
    requires 1 <= |data| <= 2
    ensures var text := Encode(data)[..|data| + 1]; Decode(text).Decoded? && |Decode(text).bytes| == 3
  {
    var text := Encode(data)[..|data| + 1];
    EncodedCharsAreAcceptable(data);
    UnpaddedPart(data);
    UnpaddedDecodesToThree(text);
  }

  lemma UnpaddedPart(data: seq<Byte>)
    requires 1 <= |data| <= 2
    ensures |Encode(data)| == 4 && PAD !in Encode(data)[..|data| + 1]
  {
  }

  lemma UnpaddedDecodesToThree(text: seq<Byte>)
    requires 1 <= |text| <= 4 && AllAcceptable(text) && PAD !in text
    ensures Decode(text).Decoded? && |Decode(text).bytes| == 3
  {
    NothingToStrip(text);
    NoneInvalid(text);
    NoPads(text);
    var bytes := Unpack(Accumulate(text));
    GroupInFront(text, [], bytes, []);
    assert text + [] == text;
  }

  lemma {:induction false} NoPads(s: seq<Byte>)
    requires PAD !in s
    ensures Pads(s) == 0
  {
    if s != [] {
      NoPads(s[..|s| - 1]);
    }
  }

  /** A text decodes exactly when, whitespace aside, every character is in the alphabet or padding and no aligned
      group is all padding. */
  lemma DecodesExactlyWhen(text: seq<Byte>)
    ensures var s := StripSpace(text);
      Decode(text).Decoded? <==> AllAcceptable(s) && forall k: nat :: !PadGroupAt(s, k)
  {
    var s := StripSpace(text);
    TrapsExactlyOnPadGroups(s);
    InvalidNeedsInvalid(s);
  }

  lemma {:induction false} InvalidNeedsInvalid(s: seq<Byte>)
    ensures AllAcceptable(s) ==> !DecodeGroups(s).Invalid?
    ensures !AllAcceptable(s) ==> !DecodeGroups(s).Decoded?
  {
    if s != [] {
      var g := GroupLength(s);
      InvalidNeedsInvalid(s[g..]);
      NoneInvalid(s[..g]);
      assert s == s[..g] + s[g..];
      if AllAcceptable(s[..g]) {
        OnlyFourPadsTrap(s[..g]);
      }
    }
  }

  /** The padded form of section 4: groups of four, padding only as the last one or two characters, and the bits the
      padding cuts off are zero. */
  predicate Canonical(s: seq<Byte>) {
    if s == [] then true
    else if |s| < 4 then false
    else if |s| == 4 && s[3] == PAD then
      Val(s[0]).Some? && Val(s[1]).Some? &&
      (if s[2] == PAD then Bits(s[1]) % 16 == 0 else Val(s[2]).Some? && Bits(s[2]) % 4 == 0)
    else
      Val(s[0]).Some? && Val(s[1]).Some? && Val(s[2]).Some? && Val(s[3]).Some? && Canonical(s[4..])
  }

  lemma {:induction false} EncodingIsCanonical(data: seq<Byte>)
    ensures Canonical(Encode(data))
  {
    if |data| == 1 {
      CutOffDigits(data[0], 0);
    } else if |data| == 2 {
      CutOffDigits(data[0], data[1]);
    } else if |data| > 2 {
      EncodingIsCanonical(data[3..]);
      assert Encode(data)[4..] == Encode(data[3..]);
    }
  }

  lemma PackUnpack(acc: nat)
    requires acc < 16777216
    ensures var b := Unpack(acc); Pack(b[0], b[1], b[2]) == acc
  {
    assert acc / 256 == acc / 65536 * 256 + acc / 256 % 256;
  }

  lemma DigitsOf(a: nat, b: nat, c: nat, d: nat)
    requires a < 64 && b < 64 && c < 64 && d < 64
    ensures var n := a * 262144 + b * 4096 + c * 64 + d;
      n < 16777216 && Digit(n, 0) == a && Digit(n, 1) == b && Digit(n, 2) == c && Digit(n, 3) == d
  {
    var n := a * 262144 + b * 4096 + c * 64 + d;
    assert n / 64 == a * 4096 + b * 64 + c;
    assert n / 4096 == a * 64 + b;
    assert n / 262144 == a;
  }

  /** The bytes a group keeps still determine its accumulator when the bits cut off are zero. */
  lemma CanonicalAccumulator(s: seq<Byte>)
    requires |s| == 4 && Canonical(s)
    ensures var acc := Accumulate(s); var u := Unpack(acc);
      && acc < 16777216 && (forall i: nat | i < 4 :: Digit(acc, i) == Bits(s[i]))
      && acc == Pack(u[0], u[1], u[2])
      && (s[3] == PAD ==> u[2] == 0)
      && (s[3] == PAD && s[2] == PAD ==> u[1] == 0)
  {
    AccumulateFour(s);
    DigitsOf(Bits(s[0]), Bits(s[1]), Bits(s[2]), Bits(s[3]));
    PackUnpack(Accumulate(s));
    if s[3] == PAD {
      CutOffByte(Accumulate(s), Bits(s[0]), Bits(s[1]), Bits(s[2]));
    }
  }

  /** With one padding character the last byte of the accumulator is zero, with two the last two are. */
  lemma CutOffByte(acc: nat, a: nat, b: nat, c: nat)
    requires acc == a * 262144 + b * 4096 + c * 64
    ensures c % 4 == 0 ==> acc % 256 == 0
    ensures c == 0 && b % 16 == 0 ==> acc / 256 % 256 == 0
  {
    if c % 4 == 0 {
      assert acc == 256 * (a * 1024 + b * 16 + c / 4);
    }
    if c == 0 && b % 16 == 0 {
      assert acc == 65536 * (a * 4 + b / 16);
    }
  }

  /** One group of a canonical text encodes what it decodes to. */
  lemma CanonicalGroup(s: seq<Byte>)
    requires |s| == 4 && Canonical(s)
    ensures DecodeGroup(s).Decoded? && Encode(DecodeGroup(s).bytes) == s
    ensures s[3] != PAD ==> |DecodeGroup(s).bytes| == 3
  {
    assert s == [s[0], s[1], s[2], s[3]];
    CanonicalAccumulator(s);
    PadsOfFour(s);
    var acc := Accumulate(s);
    GroupOfDigits(acc, s);
    LettersOfGroup(s);
    var b := DecodeGroup(s).bytes;
    if s[3] != PAD {
      assert b == Unpack(acc) && b[3..] == [];
    } else if s[2] != PAD {
      assert b == [Unpack(acc)[0], Unpack(acc)[1]];
    } else {
      assert b == [Unpack(acc)[0]];
    }
  }

  lemma LettersOfGroup(s: seq<Byte>)
    requires |s| == 4
    ensures forall i: nat | i < 4 && s[i] != PAD && Acceptable(s[i]) :: Letter(Bits(s[i])) == s[i]
  {
    forall i: nat | i < 4 && s[i] != PAD && Acceptable(s[i])
      ensures Letter(Bits(s[i])) == s[i]
    {
      LetterOfVal(s[i]);
    }
  }

  lemma {:induction false} CanonicalReencodes(s: seq<Byte>)
    requires Canonical(s)
    ensures DecodeGroups(s).Decoded? && Encode(DecodeGroups(s).bytes) == s
  {
    if s != [] {
      var group, rest := s[..4], s[4..];
      assert Canonical(group) by {
        assert |group| == 4 && group[4..] == [];
      }
      CanonicalGroup(group);
      assert s == group + rest;
      if s[3] == PAD {
        assert rest == [];
      } else {
        CanonicalReencodes(rest);
        var bytes := DecodeGroup(group).bytes;
        var tail := DecodeGroups(rest).bytes;
        assert (bytes + tail)[3..] == tail && bytes[3..] == [];
        assert Encode(bytes) == group;
      }
    }
  }

  /** Decoding and encoding again gives the text back exactly when the text, whitespace aside, is canonical. Other
      texts the decoder accepts, unpadded or with stray bits, come back different. */
  lemma ReencodesExactlyWhenCanonical(text: seq<Byte>)
    requires Decode(text).Decoded?
    ensures Encode(Decode(text).bytes) == StripSpace(text) <==> Canonical(StripSpace(text))
  {
    var s := StripSpace(text);
    if Canonical(s) {
      CanonicalReencodes(s);
    } else {
      EncodingIsCanonical(Decode(text).bytes);
    }
  }
}
