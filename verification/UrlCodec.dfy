/** Percent encoding and decoding of URLs, in buffers that may be too small or, for decoding, the source itself. */
module UrlCodec {

  type Byte = b: int | 0 <= b < 256

  const PERCENT: Byte := '%' as int

  predicate IsDigit(c: Byte) {
    '0' as int <= c <= '9' as int
  }

  predicate IsAlnum(c: Byte) {
    IsDigit(c) || 'a' as int <= c <= 'z' as int || 'A' as int <= c <= 'Z' as int
  }

  predicate IsHex(c: Byte) {
    IsDigit(c) || 'a' as int <= c <= 'f' as int || 'A' as int <= c <= 'F' as int
  }

  /** The characters other than letters and digits that stand for themselves. */
  const DONT_ESCAPE: string := "._-$,;~()"

  predicate IsPlain(c: Byte) {
    IsAlnum(c) || (c < 128 && c as char in DONT_ESCAPE)
  }

  function HexDigit(n: int): (c: Byte)
    requires 0 <= n < 16
    ensures IsHex(c) && IsPlain(c) && HexValue(c) == n
  {
    if n < 10 then '0' as int + n else 'a' as int + n - 10
  }

  function HexValue(c: Byte): (n: int)
    requires IsHex(c)
    ensures 0 <= n < 16
  {
    if IsDigit(c) then c - '0' as int
    else (if c < 'a' as int then c + 32 else c) - 'W' as int
  }

  /** The bytes that stand for themselves: digits, letters, and nine others. */
  lemma PlainBytes(c: Byte)
    ensures IsPlain(c) <==>
            || 48 <= c <= 57 || 65 <= c <= 90 || 97 <= c <= 122
            || c == 46 || c == 95 || c == 45 || c == 36 || c == 44 || c == 59 || c == 126 || c == 40 || c == 41
  {
  }

  /** Escapes are written with lower-case digits, and read with both. */
  lemma HexDigits(n: nat)
    requires n < 16
    ensures HexDigit(n) == "0123456789abcdef"[n] as int
    ensures var upper := "0123456789ABCDEF"[n] as int; IsHex(upper) && HexValue(upper) == n
  {
  }

  lemma HexBytes(c: Byte)
    ensures IsHex(c) <==> c < 128 && c as char in "0123456789abcdefABCDEF"
  {
  }

  function EncodeByte(c: Byte): seq<Byte> {
    if IsPlain(c) then [c] else [PERCENT, HexDigit(c / 16), HexDigit(c % 16)]
  }

  function Encoded(s: seq<Byte>): seq<Byte> {
    if s == [] then [] else EncodeByte(s[0]) + Encoded(s[1..])
  }

  predicate AtEscape(s: seq<Byte>) {
    |s| > 2 && s[0] == PERCENT && IsHex(s[1]) && IsHex(s[2])
  }

  /** How many bytes the first decoded byte takes. */
  function Width(s: seq<Byte>): nat {
    if AtEscape(s) then 3 else 1
  }

  function DecodeByte(s: seq<Byte>, form: bool): Byte
    requires s != []
  {
    if AtEscape(s) then HexValue(s[1]) * 16 + HexValue(s[2])
    else if form && s[0] == '+' as int then ' ' as int
    else s[0]
  }

  function Decoded(s: seq<Byte>, form: bool): (d: seq<Byte>)
    ensures |d| <= |s|
  {
    if s == [] then [] else [DecodeByte(s, form)] + Decoded(s[Width(s)..], form)
  }

  /** Decoding undoes encoding, with and without form rules, in every context. */
  lemma {:induction false} DecodedEncoded(s: seq<Byte>, form: bool)
    ensures Decoded(Encoded(s), form) == s
  {
    if s != [] {
      var code, rest := EncodeByte(s[0]), Encoded(s[1..]);
      var all := code + rest;
      assert all[|code|..] == rest;
      assert all[0] == code[0];
      if !IsPlain(s[0]) {
        assert all[1] == code[1] && all[2] == code[2];
      }
      assert Width(all) == |code| && DecodeByte(all, form) == s[0];
      DecodedEncoded(s[1..], form);
    }
  }

  /** Text without percent signs decodes to itself, but for plus signs in forms. */
  lemma {:induction false} NothingToDecode(s: seq<Byte>, form: bool)
    requires PERCENT !in s
    ensures |Decoded(s, form)| == |s|
    ensures forall i :: 0 <= i < |s| ==>
              Decoded(s, form)[i] == if form && s[i] == '+' as int then ' ' as int else s[i]
  {
    if s != [] {
      assert !AtEscape(s);
      NothingToDecode(s[1..], form);
    }
  }

  /** An escape, in either case, decodes to its byte, and a percent sign before anything else to itself. */
  lemma PercentDecodes(s: seq<Byte>, form: bool)
    requires s != [] && s[0] == PERCENT
    ensures |s| > 2 && IsHex(s[1]) && IsHex(s[2]) ==>
              Decoded(s, form) == [HexValue(s[1]) * 16 + HexValue(s[2])] + Decoded(s[3..], form)
    ensures !(|s| > 2 && IsHex(s[1]) && IsHex(s[2])) ==> Decoded(s, form) == [PERCENT] + Decoded(s[1..], form)
  {
  }

  /** The encoding is made of plain characters and percent signs, at most three to a byte. */
  lemma {:induction false} EncodedIsSafe(s: seq<Byte>)
    ensures |s| <= |Encoded(s)| <= 3 * |s|
    ensures forall c :: c in Encoded(s) ==> c != 0 && (IsPlain(c) || c == PERCENT)
  {
    if s != [] {
      EncodedIsSafe(s[1..]);
    }
  }

  function Escape(c: Byte, buf: seq<Byte>, d: nat): (r: seq<Byte>)
    requires d + 2 < |buf|
    ensures |r| == |buf|
  {
    buf[d := PERCENT][d + 1 := HexDigit(c / 16)][d + 2 := HexDigit(c % 16)]
  }

  /** What s leaves in a buffer whose first d bytes are done. A byte that does not fit is stepped over. */
  function EncodeInto(s: seq<Byte>, buf: seq<Byte>, d: nat): (r: seq<Byte>)
    requires d < |buf|
    ensures |r| == |buf|
    decreases |s|
  {
    var end := |buf| - 1;
    if s == [] || d >= end then buf[d := 0]
    else if IsPlain(s[0]) then EncodeInto(s[1..], buf[d := s[0]], d + 1)
    else if d + 2 < end then
      EncodeInto(s[1..], Escape(s[0], buf, d), d + 3)
    else EncodeInto(s[1..], buf, d + 1)
  }

  /** buf with code written over it at d. */
  function Placed(buf: seq<Byte>, d: nat, code: seq<Byte>): (r: seq<Byte>)
    requires d + |code| <= |buf|
    ensures |r| == |buf|
  {
    buf[..d] + code + buf[d + |code|..]
  }

  lemma PlacedTwice(buf: seq<Byte>, d: nat, a: seq<Byte>, b: seq<Byte>)
    requires d + |a| + |b| <= |buf|
    ensures Placed(Placed(buf, d, a), d + |a|, b) == Placed(buf, d, a + b)
  {
  }

  lemma PlacedByte(buf: seq<Byte>, d: nat, c: Byte)
    requires d + |EncodeByte(c)| <= |buf|
    ensures Placed(buf, d, EncodeByte(c)) == if IsPlain(c) then buf[d := c] else Escape(c, buf, d)
  {
  }

  lemma PlacedEnd(buf: seq<Byte>, d: nat)
    requires d < |buf|
    ensures Placed(buf, d, [0]) == buf[d := 0]
  {
  }

  lemma PlacedReads(buf: seq<Byte>, code: seq<Byte>)
    requires |code| <= |buf|
    ensures Placed(buf, 0, code)[..|code|] == code
  {
  }

  /** One byte that fits. */
  lemma EncodeNext(s: seq<Byte>, buf: seq<Byte>, d: nat)
    requires s != [] && d + |EncodeByte(s[0])| < |buf|
    ensures var d' := d + |EncodeByte(s[0])|;
            EncodeInto(s, buf, d) == EncodeInto(s[1..], Placed(buf, d, EncodeByte(s[0])), d')
  {
    PlacedByte(buf, d, s[0]);
    hide Placed, Escape, IsPlain;
  }

  /** And one that does not. */
  lemma EncodeSkip(s: seq<Byte>, buf: seq<Byte>, d: nat)
    requires s != [] && d < |buf| - 1 && d + |EncodeByte(s[0])| >= |buf|
    ensures EncodeInto(s, buf, d) == EncodeInto(s[1..], buf, d + 1)
  {
  }

  lemma EncodedStep(s: seq<Byte>)
    requires s != []
    ensures Encoded(s) == EncodeByte(s[0]) + Encoded(s[1..])
  {
  }

  lemma EncodeEnd(s: seq<Byte>, buf: seq<Byte>, d: nat)
    requires d < |buf| && (s == [] || d == |buf| - 1)
    ensures EncodeInto(s, buf, d) == Placed(buf, d, [0])
  {
    PlacedEnd(buf, d);
  }

  /** A buffer that can hold the encoding and its terminator gets exactly these. */
  lemma {:induction false} EncodeFits(s: seq<Byte>, buf: seq<Byte>, d: nat)
    requires d + |Encoded(s)| < |buf|
    ensures EncodeInto(s, buf, d) == Placed(buf, d, Encoded(s) + [0])
  {
    if s == [] {
      EncodeEnd(s, buf, d);
      assert Encoded(s) + [0] == [0];
    } else {
      hide EncodeInto, EncodeByte, Encoded, Placed;
      var code, rest := EncodeByte(s[0]), Encoded(s[1..]);
      EncodedStep(s);
      EncodeNext(s, buf, d);
      EncodeFits(s[1..], Placed(buf, d, code), d + |code|);
      PlacedTwice(buf, d, code, rest + [0]);
      assert code + (rest + [0]) == code + rest + [0];
    }
  }

  /** An escape meets the end of the room that is left, which is not empty. */
  predicate Splits(s: seq<Byte>, room: nat) {
    s != [] && room > 0 &&
    (|EncodeByte(s[0])| > room || Splits(s[1..], room - |EncodeByte(s[0])|))
  }

  /** As much of the encoding as fits in front of the terminator. */
  function Truncated(s: seq<Byte>, room: nat): (r: seq<Byte>)
    ensures |r| <= room
  {
    if |Encoded(s)| <= room then Encoded(s) else Encoded(s)[..room]
  }

  /** If no escape meets the end, a buffer of any size gets as much of the encoding as fits. */
  lemma {:induction false} NoGap(s: seq<Byte>, buf: seq<Byte>, d: nat)
    requires d < |buf| && !Splits(s, |buf| - 1 - d)
    ensures EncodeInto(s, buf, d) == Placed(buf, d, Truncated(s, |buf| - 1 - d) + [0])
  {
    hide EncodeInto, EncodeByte, Encoded, Placed, Truncated;
    var room := |buf| - 1 - d;
    if s == [] || room == 0 {
      EncodeEnd(s, buf, d);
      TruncatedNone(s, room);
    } else {
      var code := EncodeByte(s[0]);
      var next, rest := Placed(buf, d, code), Truncated(s[1..], room - |code|);
      EncodeNext(s, buf, d);
      TruncatedStep(s, room);
      NoGap(s[1..], next, d + |code|);
      PlacedTwice(buf, d, code, rest + [0]);
      assert code + (rest + [0]) == code + rest + [0];
    }
  }

  lemma TruncatedNone(s: seq<Byte>, room: nat)
    requires s == [] || room == 0
    ensures Truncated(s, room) + [0] == [0]
  {
  }

  lemma TruncatedStep(s: seq<Byte>, room: nat)
    requires s != [] && |EncodeByte(s[0])| <= room
    ensures Truncated(s, room) == EncodeByte(s[0]) + Truncated(s[1..], room - |EncodeByte(s[0])|)
  {
    var code, rest := EncodeByte(s[0]), Encoded(s[1..]);
    hide EncodeByte;
    assert Encoded(s) == code + rest;
    if |code + rest| > room {
      assert (code + rest)[..room] == code + rest[..room - |code|];
    }
  }

  /** Nothing in front of d is written again. */
  lemma {:induction false} FrontKept(s: seq<Byte>, buf: seq<Byte>, d: nat, j: nat)
    requires j < d < |buf|
    ensures EncodeInto(s, buf, d)[j] == buf[j]
    decreases |s|
  {
    var end := |buf| - 1;
    if s != [] && d < end {
      if IsPlain(s[0]) {
        FrontKept(s[1..], buf[d := s[0]], d + 1, j);
      } else if d + 2 < end {
        FrontKept(s[1..], Escape(s[0], buf, d), d + 3, j);
      } else {
        FrontKept(s[1..], buf, d + 1, j);
      }
    }
  }

  /** Where the first escape that does not fit should begin. */
  function GapAt(s: seq<Byte>, room: nat): (j: nat)
    requires Splits(s, room)
    ensures j < room && j < |Encoded(s)|
  {
    if |EncodeByte(s[0])| > room then 0
    else |EncodeByte(s[0])| + GapAt(s[1..], room - |EncodeByte(s[0])|)
  }

  lemma PlacedElsewhere(buf: seq<Byte>, d: nat, code: seq<Byte>)
    requires d + |code| <= |buf|
    ensures forall j :: d + |code| <= j < |buf| ==> Placed(buf, d, code)[j] == buf[j]
  {
  }

  /** If an escape does, one byte in front of the terminator stays what it was. */
  lemma {:induction false} Gap(s: seq<Byte>, buf: seq<Byte>, d: nat)
    requires d < |buf| && Splits(s, |buf| - 1 - d)
    ensures var j := d + GapAt(s, |buf| - 1 - d); EncodeInto(s, buf, d)[j] == buf[j]
  {
    hide EncodeInto, EncodeByte, Encoded, Placed;
    var room, code := |buf| - 1 - d, EncodeByte(s[0]);
    if |code| > room {
      EncodeSkip(s, buf, d);
      FrontKept(s[1..], buf, d + 1, d);
    } else {
      var next := Placed(buf, d, code);
      EncodeNext(s, buf, d);
      Gap(s[1..], next, d + |code|);
      PlacedElsewhere(buf, d, code);
    }
  }

  /** No byte of an encoding is zero. */
  lemma TruncatedNonzero(s: seq<Byte>, room: nat, j: nat)
    requires j < room && j < |Encoded(s)|
    ensures j < |Truncated(s, room)| && Truncated(s, room)[j] != 0
  {
    EncodedIsSafe(s);
    assert Truncated(s, room)[j] == Encoded(s)[j] && Encoded(s)[j] in Encoded(s);
  }

  /** So in a buffer of zeros the gap shows. */
  lemma GapShows(s: seq<Byte>, buf: seq<Byte>)
    requires buf != [] && Splits(s, |buf| - 1) && forall j :: 0 <= j < |buf| ==> buf[j] == 0
    ensures EncodeInto(s, buf, 0) != Placed(buf, 0, Truncated(s, |buf| - 1) + [0])
  {
    hide EncodeInto, Encoded, Placed, Truncated, Splits, GapAt;
    var fit, j := Truncated(s, |buf| - 1), GapAt(s, |buf| - 1);
    TruncatedNonzero(s, |buf| - 1, j);
    Gap(s, buf, 0);
    PlacedReads(buf, fit + [0]);
    PrefixAt(Placed(buf, 0, fit + [0]), fit, j);
  }

  lemma PrefixAt(b: seq<Byte>, fit: seq<Byte>, j: nat)
    requires j < |fit| < |b| && b[..|fit + [0]|] == fit + [0]
    ensures b[j] == fit[j]
  {
    assert b[..|fit| + 1][j] == b[j] && (fit + [0])[j] == fit[j];
  }

  /** Whatever was in it, a buffer of length n gets what fits of the encoding exactly if no escape meets its end. */
  lemma TruncatesCleanly(s: seq<Byte>, n: nat)
    requires n > 0
    ensures (forall buf: seq<Byte> :: |buf| == n ==>
               EncodeInto(s, buf, 0) == Placed(buf, 0, Truncated(s, n - 1) + [0])) <==>
            !Splits(s, n - 1)
  {
    hide EncodeInto, Splits, Encoded, Placed, Truncated;
    if Splits(s, n - 1) {
      var blank: seq<Byte> := seq(n, _ => 0);
      GapShows(s, blank);
    } else {
      forall buf: seq<Byte> | |buf| == n
        ensures EncodeInto(s, buf, 0) == Placed(buf, 0, Truncated(s, n - 1) + [0])
      {
        NoGap(s, buf, 0);
      }
    }
  }

  /** The least example: what is read back is what was there before. */
  lemma SmallBufferGap(was: Byte)
    ensures Splits([PERCENT], 2) && EncodeInto([PERCENT], [was, was, was], 0) == [was, 0, was]
  {
    assert EncodeInto([], [was, was, was], 1) == [was, was, was][1 := 0];
  }

  /** The buffer after decoding s into it with n bytes of room; 0 ends what was decoded. */
  function DecodeInto(s: seq<Byte>, buf: seq<Byte>, n: nat, form: bool): (r: seq<Byte>)
    requires 0 < n <= |buf|
    ensures |r| == |buf|
  {
    var d := Decoded(s, form);
    var kept := if |d| < n then d else d[..n - 1];
    kept + [0] + buf[|kept| + 1..]
  }

  /** The first i bytes of s decode to `done`. */
  ghost predicate DecodedTo(s: seq<Byte>, form: bool, i: nat, done: seq<Byte>) {
    i <= |s| && Decoded(s, form) == done + Decoded(s[i..], form)
  }

  lemma DecodedStep(s: seq<Byte>, form: bool, i: nat, done: seq<Byte>)
    requires i < |s| && DecodedTo(s, form, i, done)
    ensures var escape := i + 2 < |s| && s[i] == PERCENT && IsHex(s[i + 1]) && IsHex(s[i + 2]);
            var c := if escape then HexValue(s[i + 1]) * 16 + HexValue(s[i + 2])
                     else if form && s[i] == '+' as int then ' ' as int
                     else s[i];
            0 <= c < 256 && DecodedTo(s, form, if escape then i + 3 else i + 1, done + [c])
  {
    var next, c := i + Width(s[i..]), DecodeByte(s[i..], form);
    assert s[i..][Width(s[i..])..] == s[next..];
    hide DecodeByte;
    assert done + ([c] + Decoded(s[next..], form)) == done + [c] + Decoded(s[next..], form);
  }

  lemma DecodedNone(s: seq<Byte>, form: bool)
    ensures DecodedTo(s, form, 0, [])
  {
    assert s[0..] == s;
  }

  /** The loop is done: the text is used up, or only the place for the terminator is left. */
  lemma DecodeDone(s: seq<Byte>, i: nat, buf: seq<Byte>, n: nat, form: bool, done: seq<Byte>)
    requires 0 < n <= |buf| && |done| < n && DecodedTo(s, form, i, done) && (i == |s| || |done| == n - 1)
    ensures DecodeInto(s, buf, n, form) == done + [0] + buf[|done| + 1..]
    ensures i == |s| <==> |Decoded(s, form)| < n
    ensures i == |s| ==> |Decoded(s, form)| == |done|
  {
  }

  /** Decoding works alike whether or not dst is src: the write index never passes the read index. */
  method UrlDecode(src: array<Byte>, srcLen: nat, dst: array<Byte>, dstLen: nat, form: bool) returns (r: int)
    requires srcLen <= src.Length && 0 < dstLen <= dst.Length
    modifies dst
    ensures dst[..] == DecodeInto(old(src[..srcLen]), old(dst[..]), dstLen, form)
    ensures var d := Decoded(old(src[..srcLen]), form); r == if |d| < dstLen then |d| else -1
  {
    hide Decoded, DecodeInto, IsHex, HexValue, DecodedTo;
    var i, j := 0, 0;
    ghost var text, was, done := src[..srcLen], dst[..], [];
    DecodedNone(text, form);
    while i < srcLen && j < dstLen - 1
      invariant j <= i <= srcLen && j < dstLen && |done| == j
      invariant forall k :: i <= k < srcLen ==> src[k] == text[k]
      invariant forall k :: j <= k < dst.Length ==> dst[k] == was[k]
      invariant forall k :: 0 <= k < j ==> dst[k] == done[k]
      invariant DecodedTo(text, form, i, done)
    {
      DecodedStep(text, form, i, done);
      var c;
      if src[i] == PERCENT && i < srcLen - 2 && IsHex(src[i + 1]) && IsHex(src[i + 2]) {
        c := HexValue(src[i + 1]) * 16 + HexValue(src[i + 2]);
        i := i + 2;
      } else if form && src[i] == '+' as int {
        c := ' ' as int;
      } else {
        c := src[i];
      }
      dst[j] := c;
      done := done + [c];
      i, j := i + 1, j + 1;
    }
    DecodeDone(text, i, was, dstLen, form, done);
    dst[j] := 0;
    assert dst[..] == done + [0] + was[j + 1..];
    r := if i >= srcLen then j else -1;
  }

  /** Decoding a path where it lies always fits. */
  method DecodeUri(uri: array<Byte>, uriLen: nat) returns (r: int)
    requires uriLen < uri.Length
    modifies uri
    ensures var d := Decoded(old(uri[..uriLen]), false);
            r == |d| && uri[..] == d + [0] + old(uri[..])[|d| + 1..]
  {
    r := UrlDecode(uri, uriLen, uri, uriLen + 1, false);
  }

  lemma EncodeStep(s: seq<Byte>, i: nat, buf: seq<Byte>, d: nat)
    requires i < |s| && d < |buf| - 1
    ensures EncodeInto(s[i..], buf, d) ==
            if IsPlain(s[i]) then EncodeInto(s[i + 1..], buf[d := s[i]], d + 1)
            else if d + 2 < |buf| - 1 then EncodeInto(s[i + 1..], Escape(s[i], buf, d), d + 3)
            else EncodeInto(s[i + 1..], buf, d + 1)
  {
    assert s[i..][1..] == s[i + 1..];
  }

  lemma EncodeDone(s: seq<Byte>, i: nat, buf: seq<Byte>, d: nat)
    requires i <= |s| && d < |buf| && (i == |s| || d == |buf| - 1)
    ensures EncodeInto(s[i..], buf, d) == buf[d := 0]
  {
  }

  lemma EscapeIs(c: Byte, buf: seq<Byte>, d: nat)
    requires d + 2 < |buf|
    ensures Escape(c, buf, d) == buf[d := PERCENT][d + 1 := HexDigit(c / 16)][d + 2 := HexDigit(c % 16)]
  {
  }

  /** Encodes the bytes of src before its terminator at n. */
  method UrlEncode(src: array<Byte>, dst: array<Byte>, ghost n: nat)
    requires n < src.Length && src[n] == 0 && (forall k :: 0 <= k < n ==> src[k] != 0)
    requires src != dst && dst.Length > 0
    modifies dst
    ensures dst[..] == EncodeInto(src[..n], old(dst[..]), 0)
  {
    hide Encoded, IsPlain, EncodeInto, Escape;
    ghost var text := src[..n];
    ghost var goal := EncodeInto(text, dst[..], 0);
    var end := dst.Length - 1;
    var i, d := 0, 0;
    assert text[0..] == text;
    while src[i] != 0 && d < end
      invariant i <= n && d <= end
      invariant EncodeInto(text[i..], dst[..], d) == goal
      decreases n - i
    {
      EncodeStep(text, i, dst[..], d);
      ghost var before := dst[..];
      if IsPlain(src[i]) {
        dst[d] := src[i];
        assert dst[..] == before[d := src[i]];
      } else if d + 2 < end {
        dst[d] := PERCENT;
        dst[d + 1] := HexDigit(src[i] / 16);
        dst[d + 2] := HexDigit(src[i] % 16);
        EscapeIs(src[i], before, d);
        d := d + 2;
      }
      i, d := i + 1, d + 1;
    }
    EncodeDone(text, i, dst[..], d);
    ghost var before := dst[..];
    dst[d] := 0;
    assert dst[..] == before[d := 0];
  }

  /** Every string survives encoding into 3n + 1 bytes and decoding into n + 1 bytes. */
  method RoundTrip(src: array<Byte>, n: nat, mid: array<Byte>, out: array<Byte>, form: bool) returns (r: int)
    requires n < src.Length && src[n] == 0 && (forall k :: 0 <= k < n ==> src[k] != 0)
    requires src != mid && src != out && mid != out && mid.Length == 3 * n + 1 && out.Length == n + 1
    modifies mid, out
    ensures r == n && out[..] == src[..n + 1]
  {
    ghost var text := src[..n];
    ghost var code := Encoded(text);
    EncodedIsSafe(text);
    DecodedEncoded(text, form);
    EncodeFits(text, mid[..], 0);
    PlacedReads(mid[..], code + [0]);
    hide Encoded, EncodeInto, IsPlain, Decoded, Placed;
    UrlEncode(src, mid, n);
    assert mid[..|code| + 1] == code + [0];
    CodeInBuffer(mid, code);
    var len := Strlen(mid, |code|);
    r := UrlDecode(mid, len, out, out.Length, form);
    assert src[..n + 1] == text + [0];
  }

  lemma CodeInBuffer(a: array<Byte>, code: seq<Byte>)
    requires |code| < a.Length && a[..|code| + 1] == code + [0] && forall c :: c in code ==> c != 0
    ensures a[..|code|] == code && a[|code|] == 0 && forall k :: 0 <= k < |code| ==> a[k] != 0
  {
    assert forall k :: 0 <= k <= |code| ==> a[k] == (code + [0])[k];
    assert forall k :: 0 <= k < |code| ==> code[k] in code;
  }

  method Strlen(a: array<Byte>, ghost n: nat) returns (len: nat)
    requires n < a.Length && a[n] == 0 && forall k :: 0 <= k < n ==> a[k] != 0
    ensures len == n
  {
    len := 0;
    while a[len] != 0
      invariant len <= n
      decreases n - len
    {
      len := len + 1;
    }
  }
}
