/** The sample files: the C++ printer of N-bit two's complement hex lines and the Python reader. */
module Memh {
  import opened Bits
  import opened Text
  import Shaper

  // ---------- Printer ----------

  /** The upper-case hexadecimal digit of value d. */
  function HexChar(d: nat): char
    requires d < 16
  {
    if d < 10 then '0' + d as char else 'A' + (d - 10) as char
  }

  predicate IsHexChar(c: char) { '0' <= c <= '9' || 'A' <= c <= 'F' }

  /** Digits of u without leading zeros, as std::hex prints them. */
  function HexDigits(u: nat): (s: string)
    ensures |s| >= 1
    ensures forall c :: c in s ==> IsHexChar(c)
  {
    if u < 16 then [HexChar(u)] else HexDigits(u / 16) + [HexChar(u % 16)]
  }

  /** setfill('0') << setw(w): pads on the left, never truncates. */
  function Pad(s: string, w: nat): (p: string)
    ensures |s| >= w ==> p == s
    ensures |s| < w ==> |p| == w
    decreases w - |s|
  {
    if |s| >= w then s else Pad(['0'] + s, w)
  }

  /** Low N bits of the 32-bit pattern of v. */
  function ToTwos(v: int, N: nat): (u: nat)
    ensures u < Pow2(N)
  {
    AndMask(v % 0x1_0000_0000, N);
    And(v % 0x1_0000_0000, Pow2(N) - 1)
  }

  function HexWidth(N: nat): nat { (N + 3) / 4 }

  function Line(v: int, N: nat): string { Pad(HexDigits(ToTwos(v, N)), HexWidth(N)) }

  /** The file text: one line per sample, each ended by a newline. */
  function FileText(samples: seq<int>, N: nat): string {
    if samples == [] then [] else FileText(samples[..|samples| - 1], N) + Line(samples[|samples| - 1], N) + ['\n']
  }

  method DumpMemhSamples(samples: seq<int>, N: nat) returns (text: string)
    ensures text == FileText(samples, N)
  {
    text := [];
    for k := 0 to |samples|
      invariant text == FileText(samples[..k], N)
    {
      assert samples[..k + 1][..k] == samples[..k];
      text := text + Line(samples[k], N) + ['\n'];
    }
    assert samples[..|samples|] == samples;
  }

  // ---------- Reader ----------

  function DigitValue(c: char): Option<nat> {
    if '0' <= c <= '9' then Some(c as nat - '0' as nat)
    else if 'A' <= c <= 'F' then Some(c as nat - 'A' as nat + 10)
    else if 'a' <= c <= 'f' then Some(c as nat - 'a' as nat + 10)
    else None
  }

  /** Without the underscore at its end, if it has one. */
  function DropUnderscore(s: string): string
    requires s != []
  {
    if s[|s| - 1] == '_' then s[..|s| - 1] else s
  }

  /** Digits with at most one underscore between neighbours. */
  function DigitRun(s: string): Option<nat> {
    if s == [] then None
    else
      var init, last := s[..|s| - 1], DigitValue(s[|s| - 1]);
      if init == [] || last.None? then last
      else
        var high := DigitRun(DropUnderscore(init));
        if high.None? then None else Some(16 * high.value + last.value)
  }

  /** Drops 0x or 0X together with one underscore after it. */
  function DropPrefix(s: string): string {
    if |s| < 2 || s[0] != '0' || (s[1] != 'x' && s[1] != 'X') then s
    else if |s| >= 3 && s[2] == '_' then s[3..]
    else s[2..]
  }

  /** int(s, 16) on stripped ASCII text: a sign, a prefix, then the digits. */
  function ParseHex(s: string): Option<int> {
    var signed := s != [] && (s[0] == '+' || s[0] == '-');
    var u := DigitRun(DropPrefix(if signed then s[1..] else s));
    if u.None? then None else Some((if signed && s[0] == '-' then -1 else 1) * u.value)
  }

  function StripLeft(s: string): string { if s != [] && IsSpace(s[0]) then StripLeft(s[1..]) else s }

  function StripRight(s: string): string {
    if s != [] && IsSpace(s[|s| - 1]) then StripRight(s[..|s| - 1]) else s
  }

  function Strip(s: string): string { StripRight(StripLeft(s)) }

  predicate IsBreak(c: char) { c == '\n' || c == '\r' }

  /** Lines of a text stream; a final line without a break counts, an empty rest does not. A CR LF
      pair contributes an extra blank line, which the reader skips. */
  function Lines(text: string): seq<string> {
    if text == [] then []
    else
      var k := FirstBreak(text);
      if k == |text| then [text] else [text[..k]] + Lines(text[k + 1..])
  }

  function FirstBreak(text: string): (k: nat)
    ensures k <= |text|
    ensures k < |text| ==> IsBreak(text[k])
    ensures forall j :: 0 <= j < k ==> !IsBreak(text[j])
  {
    if text == [] || IsBreak(text[0]) then 0 else 1 + FirstBreak(text[1..])
  }

  /** Sign extension from bit N - 1, as the reader tests and subtracts it. */
  function SignExtend(u: int, N: nat): int
    requires N >= 1
  {
    if And(u, Shl(1, N - 1)) != 0 then u - Shl(1, N) else u
  }

  /** Values of a list of lines; None when some non-blank line is not a hex number, or when there is
      such a line and the shift count N - 1 is negative. */
  function Values(lines: seq<string>, N: int): Option<seq<int>> {
    if lines == [] then Some([])
    else
      var before := Values(lines[..|lines| - 1], N);
      var s := Strip(lines[|lines| - 1]);
      if before.None? then None
      else if s == [] then before
      else
        var u := ParseHex(s);
        if u.None? || N < 1 then None else Some(before.value + [SignExtend(u.value, N)])
  }

  method ReadMemhSigned(text: string, N: int) returns (data: Option<seq<int>>)
    ensures data == Values(Lines(text), N)
  {
    var lines := Lines(text);
    var out: seq<int> := [];
    var k := 0;
    while k < |lines|
      invariant 0 <= k <= |lines|
      invariant Values(lines[..k], N) == Some(out)
    {
      assert lines[..k + 1][..k] == lines[..k];
      var s := Strip(lines[k]);
      if s != [] {
        var u := ParseHex(s);
        if u.None? || N < 1 {
          FailureSticks(lines, N, k + 1);
          return None;
        }
        out := out + [SignExtend(u.value, N)];
      }
      k := k + 1;
    }
    assert lines[..k] == lines;
    data := Some(out);
  }

  lemma {:induction false} FailureSticks(lines: seq<string>, N: int, k: nat)
    requires k <= |lines| && Values(lines[..k], N).None?
    ensures Values(lines, N).None?
    decreases |lines|
  {
    if k < |lines| {
      assert lines[..|lines| - 1][..k] == lines[..k];
      FailureSticks(lines[..|lines| - 1], N, k);
    } else {
      assert lines[..k] == lines;
    }
  }

  // ---------- Round trip ----------

  predicate Plain(s: string) { forall c :: c in s ==> IsHexChar(c) }

  lemma HexCharacters()
    ensures forall d: nat :: d < 16 ==> DigitValue(HexChar(d)) == Some(d)
    ensures forall c :: IsHexChar(c) ==> !IsSpace(c) && !IsBreak(c)
  {
    hide IsSpace, IsBreak, IsHexChar, DigitValue, HexChar;
    forall d: nat | d < 16 ensures DigitValue(HexChar(d)) == Some(d) { DigitOfChar(d); }
    forall c | IsHexChar(c) ensures !IsSpace(c) && !IsBreak(c) { HexIsPlain(c); }
  }

  lemma DigitOfChar(d: nat)
    requires d < 16
    ensures DigitValue(HexChar(d)) == Some(d)
  {
  }

  lemma HexIsPlain(c: char)
    requires IsHexChar(c)
    ensures !IsSpace(c) && !IsBreak(c)
  {
  }

  lemma {:induction false} RunOfDigits(u: nat)
    ensures DigitRun(HexDigits(u)) == Some(u)
  {
    hide DigitValue, HexChar;
    HexCharacters();
    if u >= 16 {
      RunOfDigits(u / 16);
      var high := HexDigits(u / 16);
      assert high[|high| - 1] in high;
      RunSnoc(high, HexChar(u % 16));
    }
  }

  lemma PlainDigit(c: char)
    requires IsHexChar(c)
    ensures DigitValue(c).Some?
  {
  }

  lemma {:induction false} RunLeadingZero(s: string)
    requires s != [] && Plain(s)
    ensures DigitRun(['0'] + s) == DigitRun(s)
  {
    hide DigitValue, DigitRun;
    RunShort(['0']);
    assert DigitValue('0') == Some(0) by { HexCharacters(); assert HexChar(0) == '0'; }
    var init, c := s[..|s| - 1], s[|s| - 1];
    assert s == init + [c] && ['0'] + s == ['0'] + init + [c];
    assert (['0'] + init)[|init|] != '_' by { if init != [] { assert init[|init| - 1] in s; } }
    RunSnoc(['0'] + init, c);
    if init != [] {
      RunSnoc(init, c);
      RunLeadingZero(init);
    } else {
      assert s == [c] && ['0'] + init == ['0'];
      RunShort(s);
      assert DigitValue(c).Some? by { assert c in s; PlainDigit(c); }
    }
  }

  lemma {:induction false} RunPadded(s: string, w: nat)
    requires s != [] && Plain(s)
    ensures DigitRun(Pad(s, w)) == DigitRun(s)
    ensures Pad(s, w) != [] && Plain(Pad(s, w))
    decreases w - |s|
  {
    hide DigitRun;
    if |s| < w {
      RunLeadingZero(s);
      RunPadded(['0'] + s, w);
    }
  }

  /** What int(s, 16) accepts around a plain digit string d: either sign, and either prefix with or
      without an underscore, all with the value of d. */
  lemma Spellings(d: string)
    requires d != [] && Plain(d)
    ensures ParseHex(d) == ParseHex(['+'] + d) == ParseHex("0x" + d) == ParseHex("0X_" + d)
    ensures ParseHex(d).Some? == ParseHex(['-'] + d).Some? == DigitRun(d).Some?
    ensures DigitRun(d).Some? ==> ParseHex(d).value == DigitRun(d).value == -ParseHex(['-'] + d).value
  {
    hide DigitRun;
    PlainStart(d);
    assert (['+'] + d)[1..] == d && (['-'] + d)[1..] == d;
    assert ("0x" + d)[2..] == d && ("0X_" + d)[3..] == d;
  }

  lemma PlainStart(d: string)
    requires d != [] && Plain(d)
    ensures IsHexChar(d[0]) && (|d| >= 2 ==> IsHexChar(d[1]))
    ensures DropPrefix(d) == d
  {
  }

  function WithoutUnderscores(s: string): (r: string)
    ensures forall c :: c in r ==> c != '_'
  {
    if s == [] then []
    else
      WithoutUnderscores(s[..|s| - 1]) + (if s[|s| - 1] == '_' then [] else [s[|s| - 1]])
  }

  /** Underscores only separate: a readable run has the value of its digits alone. */
  lemma {:induction false} UnderscoresSeparate(s: string)
    requires DigitRun(s).Some?
    ensures DigitRun(WithoutUnderscores(s)) == DigitRun(s)
    decreases |s|
  {
    hide DigitValue, DigitRun, WithoutUnderscores, DropUnderscore;
    RunShort(s);
    RunLast(s);
    var init, c := s[..|s| - 1], s[|s| - 1];
    var w := WithoutUnderscores(init);
    DigitsLast(init, c);
    assert s == init + [c];
    if init != [] {
      UnderscoresSeparate(DropUnderscore(init));
      RunShort(w);
      assert w[|w| - 1] in w;
      RunSnoc(w, c);
    }
  }

  lemma RunShort(s: string)
    ensures DigitRun([]) == None
    ensures |s| == 1 ==> DigitRun(s) == DigitValue(s[0])
  {
  }

  lemma {:induction false} RunLast(s: string)
    requires s != [] && DigitRun(s).Some?
    ensures var init, last := s[..|s| - 1], DigitValue(s[|s| - 1]);
            && last.Some? && s[|s| - 1] != '_'
            && (init != [] ==>
                  && |DropUnderscore(init)| < |s| && DigitRun(DropUnderscore(init)).Some?
                  && DigitRun(s).value == 16 * DigitRun(DropUnderscore(init)).value + last.value)
  {
    hide DigitValue;
    NoDigit();
  }

  lemma {:induction false} DigitsLast(init: string, c: char)
    requires c != '_'
    ensures WithoutUnderscores(init + [c]) == WithoutUnderscores(init) + [c]
    ensures init == [] ==> WithoutUnderscores(init) == []
    ensures init != [] ==> WithoutUnderscores(DropUnderscore(init)) == WithoutUnderscores(init)
  {
    assert (init + [c])[..|init|] == init;
  }

  lemma {:induction false} RunSnoc(w: string, c: char)
    requires w != [] && w[|w| - 1] != '_'
    ensures DigitRun(w + [c]) ==
            if DigitRun(w).None? || DigitValue(c).None? then None else Some(16 * DigitRun(w).value + DigitValue(c).value)
  {
    hide DigitValue;
    assert (w + [c])[..|w|] == w;
  }

  lemma NoDigit()
    ensures DigitValue('_').None?
  {
  }

  /** Digits and underscores, no underscore at either end and no two together. */
  predicate Separated(s: string) {
    && s != [] && s[0] != '_' && s[|s| - 1] != '_'
    && (forall i :: 0 <= i < |s| ==> s[i] == '_' || DigitValue(s[i]).Some?)
    && (forall i :: 0 < i < |s| && s[i] == '_' ==> s[i - 1] != '_')
  }

  lemma SeparatedShort(s: string)
    ensures s == [] ==> !Separated(s)
    ensures |s| == 1 ==> (Separated(s) <==> DigitValue(s[0]).Some?)
  {
  }

  lemma SeparatedSnoc(s: string)
    requires |s| > 1
    ensures |DropUnderscore(s[..|s| - 1])| < |s|
    ensures Separated(s) <==> DigitValue(s[|s| - 1]).Some? && Separated(DropUnderscore(s[..|s| - 1]))
  {
    hide DigitValue;
    NoDigit();
    var init := s[..|s| - 1];
    var rest := DropUnderscore(init);
    if DigitValue(s[|s| - 1]).Some? && Separated(rest) {
      assert forall i :: 0 <= i < |rest| ==> s[i] == rest[i];
    }
  }

  /** The readable runs are exactly the separated ones. */
  lemma {:induction false} RunIff(s: string)
    ensures DigitRun(s).Some? <==> Separated(s)
    decreases |s|
  {
    hide DigitValue, Separated, DropUnderscore;
    SeparatedShort(s);
    if |s| > 1 {
      SeparatedSnoc(s);
      RunIff(DropUnderscore(s[..|s| - 1]));
    }
  }

  /** No digit string is longer than the field: u < 2^N needs at most (N + 3) / 4 digits. */
  lemma {:induction false} DigitsFit(u: nat, k: nat)
    requires u < Pow2(4 * k) && k >= 1
    ensures |HexDigits(u)| <= k
    decreases k
  {
    if u >= 16 {
      Pow2Add(4, 4 * k - 4);
      assert Pow2(4) == 16;
      if k == 1 { assert false; }
      assert u / 16 < Pow2(4 * (k - 1));
      DigitsFit(u / 16, k - 1);
    }
  }

  lemma LineWidth(v: int, N: nat)
    requires N >= 1
    ensures |Line(v, N)| == HexWidth(N)
  {
    var k := HexWidth(N);
    Pow2Monotone(N, 4 * k);
    DigitsFit(ToTwos(v, N), k);
  }

  // ---------- The printed text, character by character ----------

  const DIGITS := "0123456789ABCDEF"

  lemma DigitIs(d: nat)
    requires d < 16
    ensures HexChar(d) == DIGITS[d]
  {
  }

  lemma DivTwice(u: nat, m: nat)
    requires m >= 1
    ensures u / 16 / m == u / (16 * m)
  {
    var q, r := u / 16, u % 16;
    var t, s := q / m, q % m;
    assert q == t * m + s;
    assert u == t * (16 * m) + (16 * s + r);
    DivUnique(u, 16 * m, t, 16 * s + r);
  }

  /** Digit k from the right of an unpadded number; further left there is nothing to print. */
  lemma {:induction false} DigitAt(u: nat, k: nat)
    ensures k < |HexDigits(u)| ==> HexDigits(u)[|HexDigits(u)| - 1 - k] == HexChar(u / Pow2(4 * k) % 16)
    ensures k >= |HexDigits(u)| ==> u / Pow2(4 * k) == 0
    decreases k
  {
    hide HexChar;
    if k == 0 {
      assert Pow2(0) == 1;
    } else {
      Pow2Add(4, 4 * k - 4);
      assert Pow2(4) == 16;
      DivTwice(u, Pow2(4 * (k - 1)));
      DigitAt(u / 16, k - 1);
      if u < 16 { SmallQuotient(Pow2(4 * (k - 1))); }
    }
  }

  lemma SmallQuotient(m: nat)
    requires m >= 1
    ensures 0 / m == 0
  {
    DivUnique(0, m, 0, 0);
  }

  lemma {:induction false} PadAt(s: string, w: nat, k: nat)
    requires k < |Pad(s, w)|
    ensures Pad(s, w)[|Pad(s, w)| - 1 - k] == if k < |s| then s[|s| - 1 - k] else '0'
    decreases w - |s|
  {
    if |s| < w { PadAt(['0'] + s, w, k); }
  }

  /** Every line is the fixed-width upper-case hexadecimal numeral of the sample's N-bit pattern. */
  lemma LineDigits(v: int, N: nat, k: nat)
    requires N >= 1 && k < HexWidth(N)
    ensures |Line(v, N)| == HexWidth(N)
    ensures Line(v, N)[HexWidth(N) - 1 - k] == DIGITS[ToTwos(v, N) / Pow2(4 * k) % 16]
  {
    hide HexDigits, Pad, ToTwos, Pow2, HexChar;
    var u := ToTwos(v, N);
    LineWidth(v, N);
    DigitAt(u, k);
    PadAt(HexDigits(u), HexWidth(N), k);
    DigitIs(u / Pow2(4 * k) % 16);
    DigitIs(0);
  }

  /** Position k at the given stride. */
  function Offset(k: nat, stride: nat): nat { if k == 0 then 0 else Offset(k - 1, stride) + stride }

  lemma {:induction false} OffsetIs(k: nat, stride: nat)
    ensures Offset(k, stride) == k * stride
  {
    if k > 0 {
      OffsetIs(k - 1, stride);
      assert k * stride == (k - 1) * stride + stride;
    }
  }

  lemma {:induction false} OffsetWithin(k: nat, n: nat, stride: nat)
    requires k < n
    ensures Offset(k, stride) + stride <= Offset(n, stride)
  {
    if k < n - 1 { OffsetWithin(k, n - 1, stride); }
  }

  /** The file is the lines at a fixed stride, each followed by a line feed. */
  lemma FileLayout(samples: seq<int>, N: nat, k: nat)
    requires N >= 1 && k < |samples|
    ensures var text, stride := FileText(samples, N), HexWidth(N) + 1;
            && |text| == |samples| * stride
            && k * stride + stride <= |text|
            && text[k * stride..k * stride + stride] == Line(samples[k], N) + ['\n']
  {
    hide FileText, Line, HexWidth, Offset;
    var stride := HexWidth(N) + 1;
    OffsetIs(|samples|, stride);
    OffsetIs(k, stride);
    LinesAtOffsets(samples, N, k);
  }

  lemma {:induction false} LinesAtOffsets(samples: seq<int>, N: nat, k: nat)
    requires N >= 1 && k < |samples|
    ensures var text, stride := FileText(samples, N), HexWidth(N) + 1;
            && |text| == Offset(|samples|, stride)
            && Offset(k, stride) + stride <= |text|
            && text[Offset(k, stride)..Offset(k, stride) + stride] == Line(samples[k], N) + ['\n']
  {
    hide Line, HexWidth;
    var n, stride := |samples| - 1, HexWidth(N) + 1;
    LineWidth(samples[n], N);
    OffsetWithin(k, n + 1, stride);
    var before := FileText(samples[..n], N);
    if n > 0 {
      LinesAtOffsets(samples[..n], N, if k < n then k else 0);
    }
    assert |before| == Offset(n, stride);
    if k < n {
      OffsetWithin(k, n, stride);
      assert samples[..n][k] == samples[k];
    }
  }

  // ---------- The reader, line by line ----------

  /** The values of the digits, in either case. */
  lemma DigitValueIff(c: char, d: nat)
    ensures DigitValue(c) == Some(d) <==> d < 16 && (c == DIGITS[d] || c == "0123456789abcdef"[d])
  {
  }

  /** Sign extension subtracts 2^N exactly when bit N - 1 is set, for every integer. */
  lemma SignExtendMeaning(u: int, N: nat)
    requires N >= 1
    ensures SignExtend(u, N) == u - Bit(u, N - 1) * Pow2(N)
  {
    hide And, Bit, Pow2;
    AndSingleBit(u, N - 1);
    BitIsBinary(u, N - 1);
    assert Shl(1, N - 1) == Pow2(N - 1) && Shl(1, N) == Pow2(N);
  }

  lemma BitIsBinary(u: int, k: nat)
    ensures Bit(u, k) == 0 || Bit(u, k) == 1
  {
  }

  predicate OneLine(s: string) { forall k :: 0 <= k < |s| ==> s[k] != '\n' && s[k] != '\r' }

  /** Lines end at either line break; an unfinished last line counts unless it is empty. */
  lemma LinesMeaning(line: string, end: char, rest: string)
    requires OneLine(line) && (end == '\n' || end == '\r')
    ensures Lines(line + ([end] + rest)) == [line] + Lines(rest)
    ensures Lines(line) == if line == [] then [] else [line]
  {
    hide FirstBreak, Lines;
    var text := line + ([end] + rest);
    forall j | 0 <= j < |line| ensures !IsBreak(text[j]) { assert text[j] == line[j]; }
    LinesCons(text, |line|);
    assert text[..|line|] == line && text[|line| + 1..] == rest;
    LinesRest(line);
  }

  lemma {:induction false} NoBreak(line: string)
    requires OneLine(line)
    ensures FirstBreak(line) == |line|
  {
    if line != [] { NoBreak(line[1..]); }
  }

  lemma {:induction false} LinesRest(line: string)
    requires OneLine(line)
    ensures Lines(line) == if line == [] then [] else [line]
  {
    hide FirstBreak, OneLine;
    NoBreak(line);
  }

  predicate IsSign(s: string) { s == "" || s == "+" || s == "-" }

  predicate IsPrefix(s: string) { s == "" || s == "0x" || s == "0X" || s == "0x_" || s == "0X_" }

  /** The whole grammar of int(s, 16): an optional sign, an optional prefix, a separated digit run. */
  lemma ParseHexIff(s: string, v: int)
    ensures ParseHex(s) == Some(v) <==>
              exists sign: string, prefix: string, digits: string :: Spelled(s, v, sign, prefix, digits)
  {
    hide ParseHex, Spelled;
    if ParseHex(s) == Some(v) { var sign, prefix, digits := SpellingOf(s, v); }
    if sign: string, prefix: string, digits: string :| Spelled(s, v, sign, prefix, digits) {
      SpellingReads(s, v, sign, prefix, digits);
    }
  }

  lemma SpellingOf(s: string, v: int) returns (sign: string, prefix: string, digits: string)
    requires ParseHex(s) == Some(v)
    ensures Spelled(s, v, sign, prefix, digits)
  {
    hide DigitRun, Separated, DropPrefix, IsPrefix, ParseHex, IsSign;
    var body;
    sign, body := SignOf(s);
    digits := DropPrefix(body);
    PrefixDropped(body);
    prefix := body[..|body| - |digits|];
    RunIff(digits);
    assert body == prefix + digits;
    SignAdded(sign, prefix, digits);
  }

  lemma SignOf(s: string) returns (sign: string, body: string)
    ensures IsSign(sign) && s == sign + body
    ensures var u := DigitRun(DropPrefix(body));
            ParseHex(s) == if u.None? then None else Some((if sign == "-" then -1 else 1) * u.value)
  {
    hide DigitRun, DropPrefix;
    var signed := s != [] && (s[0] == '+' || s[0] == '-');
    sign := if signed then [s[0]] else "";
    body := if signed then s[1..] else s;
    assert sign == "-" <==> signed && s[0] == '-';
  }

  lemma SpellingReads(s: string, v: int, sign: string, prefix: string, digits: string)
    requires Spelled(s, v, sign, prefix, digits)
    ensures ParseHex(s) == Some(v)
  {
    hide DigitRun, Separated, DropPrefix, IsPrefix;
    PrefixAdded(prefix, digits);
    SignAdded(sign, prefix, digits);
  }

  ghost predicate Spelled(s: string, v: int, sign: string, prefix: string, digits: string) {
    && IsSign(sign) && IsPrefix(prefix) && Separated(digits) && DigitRun(digits).Some?
    && s == sign + prefix + digits
    && v == (if sign == "-" then -1 else 1) * DigitRun(digits).value
  }

  lemma PrefixDropped(body: string)
    ensures |DropPrefix(body)| <= |body| && body[|body| - |DropPrefix(body)|..] == DropPrefix(body)
    ensures IsPrefix(body[..|body| - |DropPrefix(body)|])
  {
    if |body| >= 2 { assert body[..2] == [body[0], body[1]]; }
    if |body| >= 3 { assert body[..3] == [body[0], body[1], body[2]]; }
  }

  lemma PrefixAdded(prefix: string, digits: string)
    requires IsPrefix(prefix) && Separated(digits)
    ensures DropPrefix(prefix + digits) == digits
    ensures prefix + digits != [] && (prefix + digits)[0] != '+' && (prefix + digits)[0] != '-'
  {
    var body := prefix + digits;
    if prefix == "" {
      assert body == digits;
    } else {
      assert body[|prefix|..] == digits;
    }
  }

  lemma SignAdded(sign: string, prefix: string, digits: string)
    requires IsSign(sign)
    ensures sign != "" ==> (sign + (prefix + digits))[0] == sign[0] && (sign + (prefix + digits))[1..] == prefix + digits
    ensures sign == "" ==> sign + (prefix + digits) == prefix + digits
    ensures sign + prefix + digits == sign + (prefix + digits)
  {
  }

  lemma {:induction false} ValuesSnoc(lines: seq<string>, line: string, N: int)
    ensures Values([], N) == Some([])
    ensures var before, s := Values(lines, N), Strip(line);
            var u := ParseHex(s);
            Values(lines + [line], N) ==
              if before.None? then None
              else if s == [] then before
              else if u.None? || N < 1 then None
              else Some(before.value + [SignExtend(u.value, N)])
  {
    hide Strip, ParseHex, SignExtend;
    assert (lines + [line])[..|lines|] == lines;
  }

  lemma Associates(x: seq<int>, y: seq<int>, z: seq<int>)
    ensures (x + y) + z == x + (y + z)
  {
  }

  /** Reading two lists of lines one after the other. */
  lemma {:induction false} ValuesConcat(a: seq<string>, b: seq<string>, N: int)
    ensures Values(a + b, N) ==
            if Values(a, N).None? || Values(b, N).None? then None else Some(Values(a, N).value + Values(b, N).value)
    decreases |b|
  {
    hide Strip, ParseHex, SignExtend, Values;
    if b == [] {
      assert a + b == a;
      ValuesSnoc([], [], N);
      if Values(a, N).Some? { assert Values(a, N).value + [] == Values(a, N).value; }
    } else {
      var rest, line := b[..|b| - 1], b[|b| - 1];
      assert a + b == (a + rest) + [line] && b == rest + [line];
      ValuesConcat(a, rest, N);
      ValuesSnoc(a + rest, line, N);
      ValuesSnoc(rest, line, N);
      var u := ParseHex(Strip(line));
      if Values(a, N).Some? && Values(rest, N).Some? && u.Some? && N >= 1 {
        Associates(Values(a, N).value, Values(rest, N).value, [SignExtend(u.value, N)]);
      }
    }
  }

  /** One line: blank ones contribute nothing, any other its sign-extended number or a failure. */
  lemma ValuesOfOne(line: string, N: int)
    ensures (forall c :: c in line ==> IsSpace(c)) ==> Values([line], N) == Some([])
    ensures !(forall c :: c in line ==> IsSpace(c)) ==>
              var u := ParseHex(Strip(line));
              Values([line], N) == if u.None? || N < 1 then None else Some([SignExtend(u.value, N)])
  {
    hide Strip, ParseHex, SignExtend, IsSpace, Values;
    StripMeaning(line);
    ValuesSnoc([], line, N);
    assert [] + [line] == [line];
    var u := ParseHex(Strip(line));
    if u.Some? && N >= 1 { assert [] + [SignExtend(u.value, N)] == [SignExtend(u.value, N)]; }
  }

  /** strip drops the longest white-space prefix and suffix: what is left has no white space at
      either end, and it is empty exactly for blank text. */
  lemma StripMeaning(s: string)
    ensures exists a: string, b: string :: s == a + Strip(s) + b && (forall c :: c in a + b ==> IsSpace(c))
    ensures Strip(s) != [] ==> !IsSpace(Strip(s)[0]) && !IsSpace(Strip(s)[|Strip(s)| - 1])
    ensures Strip(s) == [] <==> forall c :: c in s ==> IsSpace(c)
  {
    hide IsSpace, StripLeft, StripRight;
    var a := LeftMeaning(s);
    var t := StripLeft(s);
    var b := RightMeaning(t);
    assert s == a + Strip(s) + b;
    if Strip(s) != [] {
      assert t[0] == Strip(s)[0];
      assert Strip(s)[0] in s;
    }
  }

  lemma {:induction false} LeftMeaning(s: string) returns (a: string)
    ensures s == a + StripLeft(s) && forall c :: c in a ==> IsSpace(c)
    ensures StripLeft(s) != [] ==> !IsSpace(StripLeft(s)[0])
  {
    hide IsSpace;
    if s != [] && IsSpace(s[0]) {
      a := LeftMeaning(s[1..]);
      a := [s[0]] + a;
    } else {
      a := [];
    }
  }

  lemma {:induction false} RightMeaning(s: string) returns (b: string)
    ensures s == StripRight(s) + b && forall c :: c in b ==> IsSpace(c)
    ensures StripRight(s) != [] ==> !IsSpace(StripRight(s)[|StripRight(s)| - 1])
  {
    hide IsSpace;
    if s != [] && IsSpace(s[|s| - 1]) {
      b := RightMeaning(s[..|s| - 1]);
      b := b + [s[|s| - 1]];
    } else {
      b := [];
    }
  }

  lemma {:induction false} StripPlain(s: string)
    requires Plain(s)
    ensures Strip(s) == s
  {
    HexCharacters();
    if s != [] {
      assert s[0] in s && s[|s| - 1] in s;
    }
  }

  lemma TwosForm(v: int, N: nat)
    requires 1 <= N <= 32 && Shaper.FitsSigned(v, N)
    ensures ToTwos(v, N) == (if v >= 0 then v else v + Pow2(N))
  {
    hide And, Pow2;
    AndMask(v % 0x1_0000_0000, N);
    WordSplits(N);
    LowBitsOfWord(v, Pow2(32 - N), Pow2(N));
  }

  lemma LowBitsOfWord(v: int, q: int, m: int)
    requires q * m == 0x1_0000_0000 && m >= 1 && -m <= 2 * v < m && m <= 0x1_0000_0000
    ensures v % 0x1_0000_0000 % m == (if v >= 0 then v else v + m)
  {
    if v >= 0 {
      DivUnique(v, m, 0, v);
    } else {
      assert v % 0x1_0000_0000 == v + 0x1_0000_0000;
      assert (q - 1) * m == 0x1_0000_0000 - m;
      DivUnique(v + 0x1_0000_0000, m, q - 1, v + m);
    }
  }

  lemma WordSplits(N: nat)
    requires 1 <= N <= 32
    ensures Pow2(32 - N) * Pow2(N) == 0x1_0000_0000
    ensures Pow2(N) == 2 * Pow2(N - 1) <= 0x1_0000_0000
  {
    hide Pow2;
    Pow2Add(32 - N, N);
    Pow2At32();
    Pow2Monotone(N, 32);
    Pow2Double(N);
  }

  /** Printing and sign-extending one sample are inverse. */
  lemma SignExtendInverts(v: int, N: nat)
    requires 1 <= N <= 32 && Shaper.FitsSigned(v, N)
    ensures SignExtend(ToTwos(v, N), N) == v
  {
    hide And, ToTwos, Bit;
    TwosForm(v, N);
    var u, h := ToTwos(v, N), Pow2(N - 1);
    AndSingleBit(u, N - 1);
    assert Shl(1, N - 1) == h && Shl(1, N) == 2 * h;
    TopBitOf(u, N);
  }

  lemma TopBitOf(u: int, N: nat)
    requires N >= 1 && 0 <= u < Pow2(N)
    ensures Bit(u, N - 1) == (if u >= Pow2(N - 1) then 1 else 0)
  {
    if u >= Pow2(N - 1) {
      DivUnique(u, Pow2(N - 1), 1, u - Pow2(N - 1));
    } else {
      DivUnique(u, Pow2(N - 1), 0, u);
    }
  }

  lemma LineReads(v: int, N: nat)
    requires 1 <= N <= 32 && Shaper.FitsSigned(v, N)
    ensures Strip(Line(v, N)) == Line(v, N) != []
    ensures forall c :: c in Line(v, N) ==> !IsBreak(c)
    ensures ParseHex(Line(v, N)) == Some(ToTwos(v, N))
  {
    hide ToTwos, HexDigits, Pad, ParseHex, Strip, DigitRun;
    var d := HexDigits(ToTwos(v, N));
    RunOfDigits(ToTwos(v, N));
    RunPadded(d, HexWidth(N));
    Spellings(Line(v, N));
    StripPlain(Line(v, N));
    HexCharacters();
  }

  lemma FirstBreakIs(text: string, k: nat)
    requires k < |text| && IsBreak(text[k]) && forall j :: 0 <= j < k ==> !IsBreak(text[j])
    ensures FirstBreak(text) == k
  {
    hide FirstBreak;
  }

  /** Appending a terminated line to a text that ends at a line boundary appends that line. */
  lemma {:induction false} LinesSnoc(text: string, line: string)
    requires forall c :: c in line ==> !IsBreak(c)
    requires text == [] || text[|text| - 1] == '\n'
    ensures Lines(text + line + ['\n']) == Lines(text) + [line]
    decreases |text|
  {
    hide Lines, FirstBreak;
    var all := text + line + ['\n'];
    if text == [] {
      NoLines();
      LinesCons(all, |line|);
      assert all[..|line|] == line && all[|line| + 1..] == [];
    } else {
      var k := FirstBreak(text);
      assert IsBreak(text[|text| - 1]);
      var rest := text[k + 1..];
      LinesCons(text, k);
      LinesCons(all, k);
      assert all[k + 1..] == rest + line + ['\n'] && all[..k] == text[..k];
      LinesSnoc(rest, line);
    }
  }

  lemma {:induction false} LinesCons(text: string, k: nat)
    requires k < |text| && IsBreak(text[k]) && forall j :: 0 <= j < k ==> !IsBreak(text[j])
    ensures Lines(text) == [text[..k]] + Lines(text[k + 1..])
  {
    hide FirstBreak, IsBreak;
    FirstBreakIs(text, k);
  }

  /** Lines of the printed file, one per sample. */
  function AllLines(samples: seq<int>, N: nat): (lines: seq<string>)
    ensures |lines| == |samples|
  {
    if samples == [] then [] else AllLines(samples[..|samples| - 1], N) + [Line(samples[|samples| - 1], N)]
  }

  lemma {:induction false} FileLines(samples: seq<int>, N: nat)
    requires 1 <= N <= 32 && forall k :: 0 <= k < |samples| ==> Shaper.FitsSigned(samples[k], N)
    ensures Lines(FileText(samples, N)) == AllLines(samples, N)
    ensures FileText(samples, N) == [] || FileText(samples, N)[|FileText(samples, N)| - 1] == '\n'
  {
    hide Lines, Line, Shaper.FitsSigned;
    if samples == [] {
      assert Lines([]) == [] by { NoLines(); }
    } else {
      var before, v := samples[..|samples| - 1], samples[|samples| - 1];
      FileLines(before, N);
      LineReads(v, N);
      LinesSnoc(FileText(before, N), Line(v, N));
    }
  }

  lemma NoLines()
    ensures Lines([]) == []
  {
  }

  lemma {:induction false} ValuesOfLines(samples: seq<int>, N: nat)
    requires 1 <= N <= 32 && forall k :: 0 <= k < |samples| ==> Shaper.FitsSigned(samples[k], N)
    ensures Values(AllLines(samples, N), N) == Some(samples)
  {
    hide Line, Strip, ParseHex, ToTwos, SignExtend, Shaper.FitsSigned;
    if samples != [] {
      var before, v := samples[..|samples| - 1], samples[|samples| - 1];
      ValuesOfLines(before, N);
      assert AllLines(samples, N)[..|samples| - 1] == AllLines(before, N);
      LineReads(v, N);
      SignExtendInverts(v, N);
      assert before + [v] == samples;
      assert AllLines(samples, N)[|samples| - 1] == Line(v, N);
    }
  }

  /** Every list of N-bit samples written by the C++ dump is read back unchanged. */
  lemma FileRoundTrip(samples: seq<int>, N: nat)
    requires 1 <= N <= 32 && forall k :: 0 <= k < |samples| ==> Shaper.FitsSigned(samples[k], N)
    ensures Values(Lines(FileText(samples, N)), N) == Some(samples)
  {
    hide Lines, Values, FileText, AllLines, Shaper.FitsSigned;
    FileLines(samples, N);
    ValuesOfLines(samples, N);
  }
}
