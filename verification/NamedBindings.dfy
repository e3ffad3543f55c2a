/** The SystemVerilog named-binding scanner: .name(expr) lists with nested parentheses. */
module NamedBindings {
  import opened Text

  datatype ParseError = ExpectedOpen | Unterminated | Duplicate(name: string)

  // ---------- Lexical pieces, on the text still to be read ----------

  predicate IsNameStart(c: char) { 'A' <= c <= 'Z' || 'a' <= c <= 'z' || c == '_' }
  predicate IsNameChar(c: char) { IsNameStart(c) || '0' <= c <= '9' || c == '$' }

  /** str.find('.'): distance to the first dot, or the length when there is none. */
  function FirstDot(s: string): (k: nat)
    ensures k <= |s| && (k < |s| ==> s[k] == '.')
  {
    if s == [] || s[0] == '.' then 0 else 1 + FirstDot(s[1..])
  }

  function NameTail(s: string): (k: nat)
    ensures k <= |s|
  {
    if s != [] && IsNameChar(s[0]) then 1 + NameTail(s[1..]) else 0
  }

  /** Length of the identifier at the front; 0 when there is none. */
  function NameLength(s: string): (k: nat)
    ensures k <= |s|
  {
    if s != [] && IsNameStart(s[0]) then 1 + NameTail(s[1..]) else 0
  }

  function SpaceLength(s: string): (k: nat)
    ensures k <= |s|
  {
    if s != [] && IsSpace(s[0]) then 1 + SpaceLength(s[1..]) else 0
  }

  /** Offset of the parenthesis that brings the nesting from depth to zero. */
  function CloseAt(s: string, depth: nat): (r: Option<nat>)
    requires depth >= 1
    ensures r.Some? ==> r.value < |s|
  {
    if s == [] then None
    else if s[0] == ')' && depth == 1 then Some(0)
    else
      var depth' := if s[0] == '(' then depth + 1 else if s[0] == ')' then depth - 1 else depth;
      var r := CloseAt(s[1..], depth');
      if r.None? then None else Some(1 + r.value)
  }

  /** re.sub(r"\s+", "", text). */
  function Compact(s: string): string {
    if s == [] then [] else (if IsSpace(s[0]) then [] else [s[0]]) + Compact(s[1..])
  }

  /** Compaction drops exactly the white space, wherever a character stands. */
  lemma {:induction false} CompactAnywhere(s: string, c: char, t: string)
    ensures Compact(s + ([c] + t)) == Compact(s) + ((if IsSpace(c) then [] else [c]) + Compact(t))
  {
    hide IsSpace;
    var all := s + ([c] + t);
    if s == [] {
      assert all == [c] + t && all[1..] == t;
    } else {
      assert all[1..] == s[1..] + ([c] + t);
      CompactAnywhere(s[1..], c, t);
    }
  }

  lemma {:induction false} CompactPlain(s: string)
    requires forall k :: 0 <= k < |s| ==> !IsSpace(s[k])
    ensures Compact(s) == s
  {
    if s != [] { CompactPlain(s[1..]); }
  }

  /** Reading s from the given nesting depth never closes more than it opened and ends at zero. */
  predicate BalancedFrom(s: string, depth: nat) {
    if s == [] then depth == 0
    else if s[0] == '(' then BalancedFrom(s[1..], depth + 1)
    else if s[0] == ')' then depth > 0 && BalancedFrom(s[1..], depth - 1)
    else BalancedFrom(s[1..], depth)
  }

  /** The matching parenthesis is the one whose inside is balanced, in both directions. */
  lemma {:induction false} CloseIffBalanced(s: string, depth: nat, k: nat)
    ensures CloseAt(s, depth + 1) == Some(k) <==> k < |s| && s[k] == ')' && BalancedFrom(s[..k], depth)
  {
    if s == [] {
    } else if s[0] == ')' && depth == 0 {
      if 0 < k <= |s| { assert s[..k][0] == ')'; }
    } else {
      var depth' := if s[0] == '(' then depth + 1 else if s[0] == ')' then depth - 1 else depth;
      if k == 0 {
        assert s[..0] == [];
      } else {
        CloseIffBalanced(s[1..], depth', k - 1);
        if k <= |s| { assert s[..k][1..] == s[1..][..k - 1]; }
      }
    }
  }

  function Count(s: string, c: char): nat { if s == [] then 0 else (if s[0] == c then 1 else 0) + Count(s[1..], c) }

  /** Parentheses opened minus parentheses closed. */
  function Excess(s: string): int { Count(s, '(') - Count(s, ')') }

  /** Balance by counting: no prefix closes more than it opened, and in all both are equally many. */
  lemma {:induction false} BalancedIff(s: string, depth: nat)
    ensures BalancedFrom(s, depth) <==>
              depth + Excess(s) == 0 && forall k :: 0 <= k <= |s| ==> depth + Excess(s[..k]) >= 0
  {
    if s == [] {
      assert forall k :: 0 <= k <= |s| ==> s[..k] == [];
    } else {
      var depth' := depth + (if s[0] == '(' then 1 else if s[0] == ')' then -1 else 0);
      forall k | 1 <= k <= |s| ensures depth + Excess(s[..k]) == depth' + Excess(s[1..][..k - 1]) {
        assert s[..k][1..] == s[1..][..k - 1];
      }
      assert s[..|s|] == s && s[1..][..|s| - 1] == s[1..];
      assert s[..0] == [];
      if depth' >= 0 {
        BalancedIff(s[1..], depth');
        BalancedShift(s, depth, depth');
      } else {
        assert s[..1][0] == ')' && depth + Excess(s[..1]) == depth';
      }
    }
  }

  lemma BalancedShift(s: string, depth: nat, depth': nat)
    requires s != [] && forall k :: 1 <= k <= |s| ==> depth + Excess(s[..k]) == depth' + Excess(s[1..][..k - 1])
    ensures (forall k :: 0 <= k <= |s| ==> depth + Excess(s[..k]) >= 0) <==>
              forall k :: 0 <= k <= |s| - 1 ==> depth' + Excess(s[1..][..k]) >= 0
  {
    hide Excess;
    if forall k :: 0 <= k <= |s| ==> depth + Excess(s[..k]) >= 0 {
      forall k | 0 <= k <= |s| - 1 ensures depth' + Excess(s[1..][..k]) >= 0 {
        assert depth + Excess(s[..k + 1]) == depth' + Excess(s[1..][..k + 1 - 1]);
      }
    }
    assert Excess(s[..0]) == 0 by { NoExcess(s); }
  }

  lemma NoExcess(s: string)
    ensures Excess(s[..0]) == 0
  {
  }

  // ---------- find_matching_paren ----------

  function MatchingParen(text: string, open: nat): Result<nat, ParseError> {
    if open >= |text| || text[open] != '(' then Err(ExpectedOpen)
    else
      match CloseAt(text[open + 1..], 1)
      case None => Err(Unterminated)
      case Some(k) => Ok(open + 1 + k)
  }

  /** The returned index is the only closing parenthesis with a balanced inside, so the first place
      where the nesting returns to zero; the scan is unterminated exactly when there is none. */
  lemma MatchingParenMeaning(text: string, open: nat)
    ensures MatchingParen(text, open) == Err(ExpectedOpen) <==> open >= |text| || text[open] != '('
    ensures open < |text| && text[open] == '(' ==>
              forall k :: open < k < |text| ==>
                (MatchingParen(text, open) == Ok(k) <==> text[k] == ')' && BalancedFrom(text[open + 1..k], 0))
    ensures MatchingParen(text, open).Err? ==> MatchingParen(text, open).error in {ExpectedOpen, Unterminated}
    ensures MatchingParen(text, open).Ok? ==> open < MatchingParen(text, open).value < |text|
  {
    hide CloseAt, BalancedFrom;
    forall k | open < k < |text| && text[open] == '('
      ensures MatchingParen(text, open) == Ok(k) <==> text[k] == ')' && BalancedFrom(text[open + 1..k], 0)
    {
      CloseIffBalanced(text[open + 1..], 0, k - open - 1);
      assert text[open + 1..][..k - open - 1] == text[open + 1..k];
    }
  }

  lemma CloseStep(text: string, index: nat, depth: nat)
    requires index < |text| && depth >= 1
    ensures var depth' := if text[index] == '(' then depth + 1 else if text[index] == ')' then depth - 1 else depth;
            if depth' == 0 then CloseAt(text[index..], depth) == Some(0)
            else CloseAt(text[index..], depth) == (match CloseAt(text[index + 1..], depth')
                                                   case None => None
                                                   case Some(k) => Some(k + 1))
  {
    assert text[index..][1..] == text[index + 1..];
  }

  lemma CloseOfEmpty(depth: nat)
    requires depth >= 1
    ensures CloseAt([], depth) == None
  {
  }

  method FindMatchingParen(text: string, open: nat) returns (r: Result<nat, ParseError>)
    ensures r == MatchingParen(text, open)
  {
    hide CloseAt;
    if open >= |text| || text[open] != '(' { return Err(ExpectedOpen); }
    var depth: nat := 1; // after the opening parenthesis itself
    var index := open + 1;
    while index < |text|
      invariant open < index <= |text| && depth >= 1
      invariant MatchingParen(text, open) == (match CloseAt(text[index..], depth)
                                              case None => Err(Unterminated)
                                              case Some(k) => Ok(index + k))
    {
      CloseStep(text, index, depth);
      if text[index] == '(' {
        depth := depth + 1;
      } else if text[index] == ')' {
        depth := depth - 1;
        if depth == 0 { return Ok(index); }
      }
      index := index + 1;
    }
    assert text[index..] == [];
    CloseOfEmpty(depth);
    return Err(Unterminated);
  }

  method SkipSpace(text: string, start: nat) returns (index: nat)
    requires start <= |text|
    ensures index == start + SpaceLength(text[start..]) <= |text|
    ensures forall k :: start <= k < index ==> IsSpace(text[k])
    ensures index < |text| ==> !IsSpace(text[index])
  {
    index := start;
    while index < |text| && IsSpace(text[index])
      invariant start <= index <= |text|
      invariant forall k :: start <= k < index ==> IsSpace(text[k])
      invariant index + SpaceLength(text[index..]) == start + SpaceLength(text[start..])
    {
      assert text[index..][1..] == text[index + 1..];
      index := index + 1;
    }
  }

  // ---------- parse_named_bindings ----------

  /** What one turn of the scan finds in the text still to be read, and where it continues. */
  datatype Found = Nothing | Skipped(at: nat) | Item(name: string, expr: string, at: nat) | Broken

  /** From the opening parenthesis at o, with the name between d + 1 and e. */
  function ScanClose(rest: string, d: nat, e: nat, o: nat): (f: Found)
    requires d < e <= o < |rest|
    ensures f.Skipped? || f.Item? ==> 0 < f.at <= |rest|
  {
    var c := CloseAt(rest[o + 1..], 1);
    if c.None? then Broken else Item(rest[d + 1..e], rest[o + 1..o + 1 + c.value], o + 1 + c.value + 1)
  }

  /** From the end e of the name. */
  function ScanOpen(rest: string, d: nat, e: nat): (f: Found)
    requires d < e <= |rest|
    ensures f.Skipped? || f.Item? ==> 0 < f.at <= |rest|
  {
    var o := e + SpaceLength(rest[e..]);
    if o == |rest| || rest[o] != '(' then Skipped(o) else ScanClose(rest, d, e, o)
  }

  function ScanOne(rest: string): (f: Found)
    ensures f.Skipped? || f.Item? ==> 0 < f.at <= |rest|
  {
    var d := FirstDot(rest);
    if d == |rest| then Nothing
    else
      var n := NameLength(rest[d + 1..]);
      if n == 0 then Skipped(d + 1) else ScanOpen(rest, d, d + 1 + n)
  }

  lemma {:induction false} ScanNoName(rest: string)
    requires FirstDot(rest) == |rest| || NameLength(rest[FirstDot(rest) + 1..]) == 0
    ensures ScanOne(rest) == if FirstDot(rest) == |rest| then Nothing else Skipped(FirstDot(rest) + 1)
  {
    hide FirstDot, NameLength, ScanOpen;
  }

  lemma {:induction false} ScanNamed(rest: string, d: nat, e: nat, o: nat)
    requires d < |rest| && FirstDot(rest) == d && d + 1 < e && e == d + 1 + NameLength(rest[d + 1..])
    requires o == e + SpaceLength(rest[e..])
    ensures ScanOne(rest) == if o == |rest| || rest[o] != '(' then Skipped(o) else ScanClose(rest, d, e, o)
  {
    hide FirstDot, NameLength, SpaceLength, ScanClose;
    assert ScanOne(rest) == ScanOpen(rest, d, e) by { hide ScanOpen; }
    hide ScanOne;
  }

  /** The whole scan, with the bindings found so far. */
  function Parse(rest: string, found: map<string, string>): Result<map<string, string>, ParseError>
    decreases |rest|
  {
    match ScanOne(rest)
    case Nothing => Ok(found)
    case Broken => Err(Unterminated)
    case Skipped(at) => Parse(rest[at..], found)
    case Item(name, expr, at) =>
      if name in found then Err(Duplicate(name)) else Parse(rest[at..], found[name := Compact(expr)])
  }

  lemma SliceOfSlice(s: string, i: nat, j: nat)
    requires i + j <= |s|
    ensures s[i..][j..] == s[i + j..]
  {
  }

  lemma SubSlice(s: string, i: nat, a: nat, b: nat)
    requires i <= a <= b <= |s|
    ensures s[i..][a - i..b - i] == s[a..b]
  {
  }

  /** One turn of the loop body, on indices into the whole text. */
  method ScanAt(body: string, index: nat) returns (f: Found)
    requires index <= |body|
    ensures f == ScanOne(body[index..])
  {
    hide CloseAt, FirstDot, NameLength, SpaceLength, ScanOne, ScanOpen, ScanClose;
    var dot := index + FirstDot(body[index..]);
    if dot == |body| {
      ScanNoName(body[index..]);
      return Nothing;
    }
    SliceOfSlice(body, index, dot - index + 1);
    var n := NameLength(body[dot + 1..]);
    if n == 0 {
      ScanNoName(body[index..]);
      return Skipped(dot + 1 - index);
    }
    f := ScanNameAt(body, index, dot, n);
  }

  /** From a dot followed by an identifier of length n. */
  method ScanNameAt(body: string, index: nat, dot: nat, n: nat) returns (f: Found)
    requires index <= dot < |body| && FirstDot(body[index..]) == dot - index
    requires n == NameLength(body[dot + 1..]) > 0
    ensures f == ScanOne(body[index..])
  {
    hide CloseAt, FirstDot, NameLength, SpaceLength, ScanOne, ScanOpen, ScanClose;
    var nameEnd := dot + 1 + n;
    SliceOfSlice(body, index, dot - index + 1);
    SliceOfSlice(body, index, nameEnd - index);
    var open := SkipSpace(body, nameEnd);
    ScanNamed(body[index..], dot - index, nameEnd - index, open - index);
    OpenSame(body, index, open);
    if open >= |body| || body[open] != '(' { return Skipped(open - index); }
    ScanCloseShifted(body, index, dot, nameEnd, open);
    var close := FindMatchingParen(body, open);
    if close.Err? { return Broken; }
    return Item(body[dot + 1..nameEnd], body[open + 1..close.value], close.value + 1 - index);
  }

  lemma OpenSame(body: string, index: nat, open: nat)
    requires index <= open <= |body|
    ensures |body[index..]| == |body| - index
    ensures open < |body| ==> body[index..][open - index] == body[open]
  {
  }

  lemma ScanCloseShifted(body: string, index: nat, dot: nat, nameEnd: nat, open: nat)
    requires index <= dot < nameEnd <= open < |body| && body[open] == '('
    ensures ScanClose(body[index..], dot - index, nameEnd - index, open - index) ==
              (match MatchingParen(body, open)
               case Err(_) => Broken
               case Ok(close) => Item(body[dot + 1..nameEnd], body[open + 1..close], close + 1 - index))
  {
    hide CloseAt;
    SliceOfSlice(body, index, open + 1 - index);
    SubSlice(body, index, dot + 1, nameEnd);
    var c := CloseAt(body[open + 1..], 1);
    if c.Some? { SubSlice(body, index, open + 1, open + 1 + c.value); }
  }

  lemma EmptyParse(found: map<string, string>)
    ensures Parse([], found) == Ok(found)
  {
  }

  // ---------- Round trip ----------

  predicate IsName(s: string) {
    s != [] && IsNameStart(s[0]) && forall k :: 0 <= k < |s| ==> IsNameChar(s[k])
  }

  predicate IsBlank(s: string) { forall k :: 0 <= k < |s| ==> IsSpace(s[k]) }

  /** The text of an opened binding. */
  function OpenText(name: string, gap: string, after: string): string { ['.'] + (name + (gap + (['('] + after))) }

  /** s begins with a dot, an identifier, optional white space and an opening parenthesis. */
  ghost predicate Opens(s: string) {
    exists name: string, gap: string, after: string ::
      IsName(name) && IsBlank(gap) && s == OpenText(name, gap, after)
  }

  /** No dot of lead opens a binding in the text lead + rest. */
  ghost predicate Inert(lead: string, rest: string) {
    forall k :: 0 <= k < |lead| && lead[k] == '.' ==> !Opens(lead[k..] + rest)
  }

  /** One written binding: some lead, .name, optional white space, and a parenthesised expression in
      which dots, spaces and nested parentheses are allowed. */
  datatype Binding = Binding(lead: string, name: string, gap: string, expr: string) {
    predicate WellFormed() { '.' !in lead && IsWritten() }

    /** An identifier, white space and a balanced expression. */
    predicate IsWritten() { IsName(name) && IsBlank(gap) && BalancedFrom(expr, 0) }

    /** In front of `after` the binding is the first thing that opens. */
    ghost predicate Placed(after: string) { IsWritten() && Inert(lead, ['.'] + FromName(after)) }

    /** The text from the expression on, then `after`; and so outward. */
    function FromExpr(after: string): string { expr + ([')'] + after) }
    function FromGap(after: string): string { gap + (['('] + FromExpr(after)) }
    function FromName(after: string): string { name + FromGap(after) }
    function Text(after: string): string { lead + (['.'] + FromName(after)) }
  }

  function Render(bs: seq<Binding>, tail: string): string {
    if bs == [] then tail else bs[0].Text(Render(bs[1..], tail))
  }

  /** What the parser owes the caller: the map of compacted expressions, or the first repeated name. */
  function Expected(bs: seq<Binding>, found: map<string, string>): Result<map<string, string>, ParseError> {
    if bs == [] then Ok(found)
    else if bs[0].name in found then Err(Duplicate(bs[0].name))
    else Expected(bs[1..], found[bs[0].name := Compact(bs[0].expr)])
  }

  lemma {:induction false} FirstDotAfter(lead: string, s: string)
    requires '.' !in lead && s != [] && s[0] == '.'
    ensures FirstDot(lead + s) == |lead|
  {
    if lead == [] {
      assert lead + s == s;
    } else {
      assert (lead + s)[1..] == lead[1..] + s;
      assert lead[0] in lead;
      FirstDotAfter(lead[1..], s);
    }
  }

  lemma {:induction false} NameTailAfter(name: string, s: string)
    requires forall k :: 0 <= k < |name| ==> IsNameChar(name[k])
    requires s != [] && !IsNameChar(s[0])
    ensures NameTail(name + s) == |name|
  {
    if name == [] {
      assert name + s == s;
    } else {
      assert (name + s)[1..] == name[1..] + s;
      NameTailAfter(name[1..], s);
    }
  }

  lemma {:induction false} SpaceAfter(gap: string, s: string)
    requires forall k :: 0 <= k < |gap| ==> IsSpace(gap[k])
    requires s != [] && !IsSpace(s[0])
    ensures SpaceLength(gap + s) == |gap|
  {
    if gap == [] {
      assert gap + s == s;
    } else {
      assert (gap + s)[1..] == gap[1..] + s;
      SpaceAfter(gap[1..], s);
    }
  }

  lemma SpaceIsNotName(c: char)
    ensures IsSpace(c) ==> !IsNameChar(c)
    ensures !IsSpace('(') && !IsNameChar('(')
  {
  }

  lemma NameAfter(b: Binding, after: string)
    requires b.WellFormed()
    ensures NameLength(b.FromName(after)) == |b.name|
  {
    hide BalancedFrom, IsSpace;
    var g := b.FromGap(after);
    SpaceIsNotName(g[0]);
    assert g[0] == '(' || IsSpace(g[0]);
    assert b.FromName(after)[1..] == b.name[1..] + g;
    NameTailAfter(b.name[1..], g);
  }

  lemma CloseAfter(b: Binding, after: string)
    requires b.WellFormed()
    ensures CloseAt(b.FromExpr(after), 1) == Some(|b.expr|)
  {
    var s := b.FromExpr(after);
    assert s[..|b.expr|] == b.expr && s[|b.expr|] == ')';
    CloseIffBalanced(s, 0, |b.expr|);
  }

  /** One written binding is consumed exactly. */
  lemma ScanWritten(b: Binding, after: string)
    requires b.WellFormed()
    ensures var f := ScanOne(b.Text(after));
            f.Item? && f.name == b.name && f.expr == b.expr && b.Text(after)[f.at..] == after
  {
    hide CloseAt, FirstDot, NameLength, SpaceLength, BalancedFrom, IsSpace;
    hide Binding.Text, Binding.FromName, Binding.FromGap, Binding.FromExpr, ScanOne;
    TextSlices(b, after);
    DotOf(b, after);
    NameAfter(b, after);
    SpaceOf(b, after);
    CloseAfter(b, after);
    var d := |b.lead|;
    var e := d + 1 + |b.name|;
    var o := e + |b.gap|;
    ScanNamed(b.Text(after), d, e, o);
  }

  lemma DotOf(b: Binding, after: string)
    requires b.WellFormed()
    ensures FirstDot(b.Text(after)) == |b.lead|
  {
    hide BalancedFrom, IsSpace;
    FirstDotAfter(b.lead, ['.'] + b.FromName(after));
  }

  lemma SpaceOf(b: Binding, after: string)
    requires b.WellFormed()
    ensures SpaceLength(b.FromGap(after)) == |b.gap|
  {
    hide BalancedFrom, IsSpace;
    SpaceIsNotName('(');
    SpaceAfter(b.gap, ['('] + b.FromExpr(after));
  }

  /** Where the parts of a written binding sit. */
  lemma TextSlices(b: Binding, after: string)
    ensures var rest := b.Text(after);
            var d := |b.lead|;
            var e := d + 1 + |b.name|;
            var o := e + |b.gap|;
            && o + 1 + |b.expr| + 1 <= |rest| && rest[o] == '('
            && rest[d + 1..] == b.FromName(after) && rest[d + 1..e] == b.name
            && rest[e..] == b.FromGap(after)
            && rest[o + 1..] == b.FromExpr(after) && rest[o + 1..o + 1 + |b.expr|] == b.expr
            && rest[o + 1 + |b.expr| + 1..] == after
  {
  }

  lemma NoDotNoBinding(tail: string, found: map<string, string>)
    requires '.' !in tail
    ensures Parse(tail, found) == Ok(found)
  {
    assert FirstDot(tail) == |tail|;
  }

  /** What opening means for the scanner's own pieces. */
  lemma OpensIff(s: string)
    requires s != [] && s[0] == '.'
    ensures var e := 1 + NameLength(s[1..]);
            var o := e + SpaceLength(s[e..]);
            Opens(s) <==> e > 1 && o < |s| && s[o] == '('
  {
    hide NameLength, SpaceLength, Opens;
    if Opens(s) { OpenedShape(s); }
    var e := 1 + NameLength(s[1..]);
    var o := e + SpaceLength(s[e..]);
    if e > 1 && o < |s| && s[o] == '(' { ShapeOpens(s, e, o); }
  }

  lemma ShapeOpens(s: string, e: nat, o: nat)
    requires s != [] && s[0] == '.' && e == 1 + NameLength(s[1..]) && e > 1 && o == e + SpaceLength(s[e..])
    requires o < |s| && s[o] == '('
    ensures Opens(s)
  {
    hide NameLength, SpaceLength, IsName, IsBlank;
    PartsAre(s, 0, e, o);
    assert s == OpenText(s[1..e], s[e..o], s[o + 1..]);
  }

  lemma OpenedShape(s: string)
    requires Opens(s) && s != []
    ensures var e := 1 + NameLength(s[1..]);
            var o := e + SpaceLength(s[e..]);
            e > 1 && o < |s| && s[o] == '('
  {
    hide NameLength, SpaceLength, IsName, IsBlank, OpenText;
    var name: string, gap: string, after: string :| IsName(name) && IsBlank(gap) && s == OpenText(name, gap, after);
    NameNotEmpty(name);
    OpenedName(name, gap, after);
    OpenedGap(gap, after);
    OpenedParts(name, gap, after);
  }

  lemma OpenedParts(name: string, gap: string, after: string)
    ensures var s := OpenText(name, gap, after);
            && |s| == 2 + |name| + |gap| + |after|
            && s[1..] == name + (gap + (['('] + after))
            && s[1 + |name|..] == gap + (['('] + after)
            && s[1 + |name| + |gap|] == '('
  {
  }

  lemma OpenedName(name: string, gap: string, after: string)
    requires IsName(name) && IsBlank(gap)
    ensures NameLength(name + (gap + (['('] + after))) == |name|
  {
    hide IsSpace, NameTail;
    var g := gap + (['('] + after);
    SpaceIsNotName(g[0]);
    assert g[0] == '(' || IsSpace(g[0]);
    assert (name + g)[1..] == name[1..] + g;
    NameTailAfter(name[1..], g);
  }

  lemma OpenedGap(gap: string, after: string)
    requires IsBlank(gap)
    ensures SpaceLength(gap + (['('] + after)) == |gap|
  {
    hide IsSpace, SpaceLength;
    SpaceIsNotName('(');
    SpaceAfter(gap, ['('] + after);
  }

  /** Behind a dot, the identifier and the white space contain no further dot. */
  lemma {:induction false} NoDotInside(s: string, e: nat, o: nat)
    requires e == NameLength(s) && o == e + SpaceLength(s[e..])
    ensures o <= |s| && '.' !in s[..o]
  {
    hide IsSpace, NameLength, SpaceLength;
    if e > 0 { NameIsName(s); }
    SpaceIsSpace(s[e..]);
    DotIsNeither();
    forall k | 0 <= k < o ensures s[k] != '.' {
      if k < e { assert s[..e][k] == s[k]; } else { assert s[e..][..o - e][k - e] == s[k]; }
    }
  }

  lemma DotIsNeither()
    ensures !IsNameChar('.') && !IsSpace('.')
  {
  }

  /** A first dot that does not open is skipped, together with nothing that holds another dot. */
  lemma ScanInert(text: string, d: nat)
    requires FirstDot(text) == d < |text| && !Opens(text[d..])
    ensures var f := ScanOne(text);
            f.Skipped? && d < f.at <= |text| && '.' !in text[d + 1..f.at]
  {
    hide IsSpace, NameLength, SpaceLength, FirstDot, Opens, ScanOne, ScanClose;
    var s := text[d..];
    OpensIff(s);
    assert s[1..] == text[d + 1..];
    var n := NameLength(text[d + 1..]);
    var e := d + 1 + n;
    var o := e + SpaceLength(text[e..]);
    assert s[1 + n..] == text[e..] && text[d + 1..][n..] == text[e..];
    NoDotInside(text[d + 1..], n, n + SpaceLength(text[e..]));
    assert text[d + 1..][..o - d - 1] == text[d + 1..o];
    if n == 0 {
      ScanNoName(text);
    } else {
      ScanNamed(text, d, e, o);
      if o < |text| { assert s[o - d] == text[o]; }
    }
  }

  lemma FirstDotIn(lead: string, rest: string)
    ensures '.' !in lead ==> (rest == [] || rest[0] == '.' ==> FirstDot(lead + rest) == |lead|)
    ensures '.' in lead ==> FirstDot(lead + rest) < |lead| && FirstDot(lead + rest) == FirstDot(lead)
    ensures '.' !in lead[..FirstDot(lead)]
  {
    if lead != [] {
      FirstDotIn(lead[1..], rest);
      assert (lead + rest)[1..] == lead[1..] + rest;
      assert lead == [lead[0]] + lead[1..];
      if lead[0] != '.' { assert lead[..FirstDot(lead)] == [lead[0]] + lead[1..][..FirstDot(lead[1..])]; }
    } else {
      assert lead + rest == rest;
    }
  }

  /** Inert text is passed over, up to a dot-free rest of it. */
  lemma {:induction false} PassInert(lead: string, rest: string, found: map<string, string>) returns (lead': string)
    requires Inert(lead, rest) && (rest == [] || rest[0] == '.')
    ensures '.' !in lead' && Parse(lead + rest, found) == Parse(lead' + rest, found)
    decreases |lead|
  {
    hide ScanOne, FirstDot, Opens;
    if '.' !in lead {
      lead' := lead;
    } else {
      var text, d := lead + rest, FirstDot(lead);
      FirstDotIn(lead, rest);
      assert text[d..] == lead[d..] + rest;
      ScanInert(text, d);
      var at := ScanOne(text).at;
      if at > |lead| {
        DotWithin(text, d + 1, at, |lead|);
        assert false;
      }
      assert text[at..] == lead[at..] + rest;
      InertTail(lead, rest, at);
      lead' := PassInert(lead[at..], rest, found);
    }
  }

  lemma DotWithin(text: string, i: nat, j: nat, k: nat)
    requires i <= k < j <= |text| && text[k] == '.'
    ensures '.' in text[i..j]
  {
    assert text[i..j][k - i] == '.';
  }

  lemma InertTail(lead: string, rest: string, at: nat)
    requires Inert(lead, rest) && at <= |lead|
    ensures Inert(lead[at..], rest)
  {
    hide Opens;
    forall k | 0 <= k < |lead| - at && lead[at..][k] == '.' ensures !Opens(lead[at..][k..] + rest) {
      assert lead[at..][k..] == lead[at + k..];
    }
  }

  /** Every binding stands in front of the text of the following ones. */
  ghost predicate AllPlaced(bs: seq<Binding>, tail: string) {
    forall k :: 0 <= k < |bs| ==> bs[k].Placed(Render(bs[k + 1..], tail))
  }

  /** Nothing opens in the tail. */
  ghost predicate Quiet(tail: string) { Inert(tail, []) }

  /** The first binding that opens in the tail never closes. */
  ghost predicate Unclosed(tail: string) {
    exists lead: string, name: string, gap: string, after: string ::
      && IsName(name) && IsBlank(gap) && Inert(lead, OpenText(name, gap, after))
      && NeverCloses(after) && tail == lead + OpenText(name, gap, after)
  }

  ghost predicate NeverCloses(after: string) {
    forall k :: 0 <= k < |after| ==> !(after[k] == ')' && BalancedFrom(after[..k], 0))
  }

  lemma NeverClosesIff(after: string)
    ensures NeverCloses(after) <==> CloseAt(after, 1) == None
  {
    hide BalancedFrom, CloseAt;
    forall k | 0 <= k < |after| ensures CloseAt(after, 1) == Some(k) <==> after[k] == ')' && BalancedFrom(after[..k], 0) {
      CloseIffBalanced(after, 0, k);
    }
    if CloseAt(after, 1).Some? {
      var k := CloseAt(after, 1).value;
      assert after[k] == ')' && BalancedFrom(after[..k], 0);
    }
  }

  lemma {:induction false} ParseQuiet(tail: string, found: map<string, string>)
    requires Quiet(tail)
    ensures Parse(tail, found) == Ok(found)
  {
    hide Parse, Inert;
    var lead' := PassInert(tail, [], found);
    assert tail + [] == tail && lead' + [] == lead';
    NoDotNoBinding(lead', found);
  }

  lemma ParseUnclosed(tail: string, found: map<string, string>)
    requires Unclosed(tail)
    ensures Parse(tail, found) == Err(Unterminated)
  {
    hide Parse, Inert, IsName, IsBlank, NeverCloses, OpenText, ScanOne;
    var lead: string, name: string, gap: string, after: string :|
      && IsName(name) && IsBlank(gap) && Inert(lead, OpenText(name, gap, after))
      && NeverCloses(after) && tail == lead + OpenText(name, gap, after);
    var rest := OpenText(name, gap, after);
    OpenTextDot(name, gap, after);
    var lead' := PassInert(lead, rest, found);
    ScanUnclosed(lead', name, gap, after);
    BrokenFails(lead' + rest, found);
  }

  lemma OpenTextDot(name: string, gap: string, after: string)
    ensures OpenText(name, gap, after) != [] && OpenText(name, gap, after)[0] == '.'
  {
  }

  lemma BrokenFails(text: string, found: map<string, string>)
    requires ScanOne(text) == Broken
    ensures Parse(text, found) == Err(Unterminated)
  {
  }

  lemma ScanUnclosed(lead: string, name: string, gap: string, after: string)
    requires '.' !in lead && IsName(name) && IsBlank(gap) && NeverCloses(after)
    ensures ScanOne(lead + OpenText(name, gap, after)) == Broken
  {
    hide IsName, IsBlank, NeverCloses, CloseAt, FirstDot, NameLength, SpaceLength, ScanOne;
    var text := lead + OpenText(name, gap, after);
    var d := |lead|;
    var e := d + 1 + |name|;
    var o := e + |gap|;
    FirstDotIn(lead, OpenText(name, gap, after));
    OpenedName(name, gap, after);
    OpenedGap(gap, after);
    assert text[d + 1..] == name + (gap + (['('] + after));
    assert text[e..] == gap + (['('] + after);
    assert text[o + 1..] == after && text[o] == '(';
    NameNotEmpty(name);
    ScanNamed(text, d, e, o);
    NeverClosesIff(after);
  }

  lemma NameNotEmpty(name: string)
    requires IsName(name)
    ensures name != []
  {
  }

  /** What the rest of the text adds after the written bindings. */
  function Ended(r: Result<map<string, string>, ParseError>, quiet: bool): Result<map<string, string>, ParseError> {
    if r.Ok? && !quiet then Err(Unterminated) else r
  }

  lemma {:induction false} ParseRendered(bs: seq<Binding>, tail: string, found: map<string, string>, quiet: bool)
    requires AllPlaced(bs, tail) && (if quiet then Quiet(tail) else Unclosed(tail))
    ensures Parse(Render(bs, tail), found) == Ended(Expected(bs, found), quiet)
    decreases |bs|
  {
    hide Parse, Compact, BalancedFrom, Quiet, Unclosed, Binding.Placed;
    if bs == [] {
      if quiet { ParseQuiet(tail, found); } else { ParseUnclosed(tail, found); }
    } else {
      var b, after := bs[0], Render(bs[1..], tail);
      assert bs[0 + 1..] == bs[1..];
      assert b.Placed(after);
      PlacedTail(bs, tail);
      ParsePlaced(b, after, found);
      if b.name !in found { ParseRendered(bs[1..], tail, found[b.name := Compact(b.expr)], quiet); }
    }
  }

  lemma PlacedTail(bs: seq<Binding>, tail: string)
    requires bs != [] && AllPlaced(bs, tail)
    ensures AllPlaced(bs[1..], tail)
  {
    hide Binding.Placed, Render;
    forall k | 0 <= k < |bs| - 1 ensures bs[1..][k].Placed(Render(bs[1..][k + 1..], tail)) {
      assert bs[1..][k] == bs[k + 1] && bs[1..][k + 1..] == bs[k + 1 + 1..];
    }
  }

  /** One placed binding is read, whatever stands in front of it. */
  lemma ParsePlaced(b: Binding, after: string, found: map<string, string>)
    requires b.Placed(after)
    ensures Parse(b.Text(after), found) ==
              if b.name in found then Err(Duplicate(b.name)) else Parse(after, found[b.name := Compact(b.expr)])
  {
    hide Parse, Compact, BalancedFrom, Inert, IsName, IsBlank;
    var lead' := PassInert(b.lead, ['.'] + b.FromName(after), found);
    var b' := b.(lead := lead');
    assert b'.FromName(after) == b.FromName(after);
    ScanWritten(b', after);
    ParseItem(b'.Text(after), found);
  }

  lemma ParseItem(text: string, found: map<string, string>)
    requires ScanOne(text).Item?
    ensures var f := ScanOne(text);
            Parse(text, found) ==
              if f.name in found then Err(Duplicate(f.name)) else Parse(text[f.at..], found[f.name := Compact(f.expr)])
  {
    hide ScanOne, Compact;
  }

  /** Position j is the first whose name was written before. */
  ghost predicate FirstRepeat(bs: seq<Binding>, j: nat) {
    && j < |bs| && (exists i :: 0 <= i < j && bs[i].name == bs[j].name)
    && forall i, k :: 0 <= i < k < j ==> bs[i].name != bs[k].name
  }

  ghost predicate Distinct(bs: seq<Binding>) { forall i, j :: 0 <= i < j < |bs| ==> bs[i].name != bs[j].name }

  /** Written bindings with anything inert between them are read back: distinct names give exactly the
      map of compacted expressions, an unclosed one behind them is reported, and otherwise the first
      repeated name. */
  lemma RoundTrip(bs: seq<Binding>, tail: string)
    requires AllPlaced(bs, tail) && (Quiet(tail) || Unclosed(tail))
    ensures Distinct(bs) && Quiet(tail) ==>
              var r := Parse(Render(bs, tail), map[]);
              && r.Ok?
              && r.value.Keys == (set k | 0 <= k < |bs| :: bs[k].name)
              && forall k :: 0 <= k < |bs| ==> r.value[bs[k].name] == Compact(bs[k].expr)
    ensures Distinct(bs) && Unclosed(tail) ==> Parse(Render(bs, tail), map[]) == Err(Unterminated)
    ensures forall j: nat :: FirstRepeat(bs, j) ==> Parse(Render(bs, tail), map[]) == Err(Duplicate(bs[j].name))
  {
    hide Parse, Compact, Render, Expected, BalancedFrom, Quiet, Unclosed, AllPlaced;
    if Quiet(tail) { ParseRendered(bs, tail, map[], true); }
    if Unclosed(tail) { ParseRendered(bs, tail, map[], false); }
    if Distinct(bs) { ExpectedDistinct(bs, map[]); }
    forall j: nat | FirstRepeat(bs, j) ensures Expected(bs, map[]) == Err(Duplicate(bs[j].name)) {
      ExpectedRepeated(bs, map[], j);
    }
  }

  /** Every text is of that form. */
  lemma {:induction false} Decomposes(text: string) returns (bs: seq<Binding>, tail: string)
    ensures text == Render(bs, tail) && AllPlaced(bs, tail) && (Quiet(tail) || Unclosed(tail))
    decreases |text|
  {
    hide ScanOne, Opens, Inert, FirstDot, Unclosed, Binding.Placed, Binding.Text;
    var f := ScanOne(text);
    match f {
      case Nothing =>
        bs, tail := [], text;
        NothingIsQuiet(text);
      case Broken =>
        bs, tail := [], text;
        BrokenIsUnclosed(text);
      case Skipped(at) =>
        bs, tail := Decomposes(text[at..]);
        SkippedIsInert(text);
        bs, tail := LeadPut(text[..at], text[at..], bs, tail);
        assert text[..at] + text[at..] == text;
      case Item(name, expr, at) =>
        var bs', tail' := Decomposes(text[at..]);
        var b := ItemIsPlaced(text);
        bs, tail := [b] + bs', tail';
        PlacedCons(b, bs', tail');
    }
  }

  lemma PlacedCons(b: Binding, bs: seq<Binding>, tail: string)
    requires AllPlaced(bs, tail) && b.Placed(Render(bs, tail))
    ensures AllPlaced([b] + bs, tail) && Render([b] + bs, tail) == b.Text(Render(bs, tail))
  {
    hide Binding.Placed, Binding.Text;
    var all := [b] + bs;
    assert all[1..] == bs;
    forall k | 0 <= k < |all| ensures all[k].Placed(Render(all[k + 1..], tail)) {
      if k > 0 { assert all[k + 1..] == bs[k - 1 + 1..] && all[k] == bs[k - 1]; }
    }
  }

  lemma NothingIsQuiet(text: string)
    requires ScanOne(text) == Nothing
    ensures Quiet(text)
  {
    hide Opens, NameLength, SpaceLength, CloseAt, FirstDot, Inert;
    FirstDotIn(text, []);
    assert FirstDot(text) == |text| && text[..|text|] == text;
    DotFreeInert(text, []);
  }

  /** The skipped part of the text is inert. */
  lemma SkippedIsInert(text: string)
    requires ScanOne(text).Skipped?
    ensures ScanOne(text).at <= |text|
    ensures Inert(text[..ScanOne(text).at], text[ScanOne(text).at..])
  {
    hide ScanOne, FirstDot, Opens;
    var d := SkippedDot(text);
    ScanInert(text, d);
    FirstDotIn(text, []);
    var at := ScanOne(text).at;
    var lead := text[..at];
    forall k | 0 <= k < |lead| && lead[k] == '.' ensures !Opens(lead[k..] + text[at..]) {
      assert lead[k..] + text[at..] == text[k..];
    }
  }

  lemma SkippedDot(text: string) returns (d: nat)
    requires ScanOne(text).Skipped?
    ensures d < |text| && FirstDot(text) == d && !Opens(text[d..])
  {
    hide FirstDot, NameLength, SpaceLength, Opens, CloseAt;
    d := FirstDot(text);
    var s := text[d..];
    OpensIff(s);
    assert s[1..] == text[d + 1..];
    var n := NameLength(text[d + 1..]);
    assert s[1 + n..] == text[d + 1 + n..];
  }

  /** Inert text in front of a decomposition joins its first lead, or its tail. */
  lemma LeadPut(pre: string, text: string, bs: seq<Binding>, tail: string)
    returns (bs': seq<Binding>, tail': string)
    requires text == Render(bs, tail) && AllPlaced(bs, tail) && (Quiet(tail) || Unclosed(tail)) && Inert(pre, text)
    ensures pre + text == Render(bs', tail') && AllPlaced(bs', tail') && (Quiet(tail') || Unclosed(tail'))
  {
    hide Inert, BalancedFrom, IsName, IsBlank, NeverCloses, OpenText;
    if bs == [] {
      bs', tail' := [], pre + tail;
      if Quiet(tail) {
        assert tail + [] == tail;
        InertConcat(pre, tail, []);
      } else {
        var lead: string, name: string, gap: string, after: string :|
          && IsName(name) && IsBlank(gap) && Inert(lead, OpenText(name, gap, after))
          && NeverCloses(after) && tail == lead + OpenText(name, gap, after);
        InertConcat(pre, lead, OpenText(name, gap, after));
        assert pre + tail == (pre + lead) + OpenText(name, gap, after);
      }
    } else {
      var b, after := bs[0], Render(bs[1..], tail);
      assert bs[0 + 1..] == bs[1..];
      assert b.Placed(after);
      PlacedTail(bs, tail);
      var b' := b.(lead := pre + b.lead);
      InertConcat(pre, b.lead, ['.'] + b.FromName(after));
      assert b'.FromName(after) == b.FromName(after);
      bs', tail' := [b'] + bs[1..], tail;
      PlacedCons(b', bs[1..], tail);
      assert b'.Text(after) == pre + b.Text(after);
    }
  }

  lemma InertConcat(a: string, b: string, rest: string)
    requires Inert(a, b + rest) && Inert(b, rest)
    ensures Inert(a + b, rest)
  {
    hide Opens;
    forall k | 0 <= k < |a + b| && (a + b)[k] == '.' ensures !Opens((a + b)[k..] + rest) {
      if k < |a| {
        assert (a + b)[k..] + rest == a[k..] + (b + rest);
      } else {
        assert (a + b)[k..] == b[k - |a|..];
      }
    }
  }

  lemma DotFreeInert(lead: string, rest: string)
    requires '.' !in lead
    ensures Inert(lead, rest)
  {
    forall k | 0 <= k < |lead| && lead[k] == '.' ensures false {
    }
  }

  lemma BrokenIsUnclosed(text: string)
    requires ScanOne(text) == Broken
    ensures Unclosed(text)
  {
    hide CloseAt, IsName, IsBlank, Inert, NeverCloses, OpenText, ScanOne;
    var d, e, o := BrokenParts(text);
    var lead, name, gap, after := text[..d], text[d + 1..e], text[e..o], text[o + 1..];
    DotFreeInert(lead, OpenText(name, gap, after));
    NeverClosesIff(after);
    OpenJoin(text, d, e, o);
  }

  lemma BrokenParts(text: string) returns (d: nat, e: nat, o: nat)
    requires ScanOne(text) == Broken
    ensures d < e <= o < |text| && text[d] == '.' && text[o] == '(' && '.' !in text[..d]
    ensures IsName(text[d + 1..e]) && IsBlank(text[e..o]) && CloseAt(text[o + 1..], 1) == None
  {
    hide CloseAt, FirstDot, NameLength, SpaceLength, IsName, IsBlank;
    d := FirstDot(text);
    e := d + 1 + NameLength(text[d + 1..]);
    o := e + SpaceLength(text[e..]);
    PartsAre(text, d, e, o);
    FirstDotIn(text, []);
  }

  lemma OpenJoin(text: string, d: nat, e: nat, o: nat)
    requires d < e <= o < |text| && text[d] == '.' && text[o] == '('
    ensures text == text[..d] + OpenText(text[d + 1..e], text[e..o], text[o + 1..])
  {
    assert text[e..] == text[e..o] + (['('] + text[o + 1..]);
    assert text[d + 1..] == text[d + 1..e] + text[e..];
    assert text == text[..d] + (['.'] + text[d + 1..]);
  }

  /** The scanned name and gap. */
  lemma PartsAre(text: string, d: nat, e: nat, o: nat)
    requires d < |text| && e == d + 1 + NameLength(text[d + 1..]) && e > d + 1 && o == e + SpaceLength(text[e..])
    ensures IsName(text[d + 1..e]) && IsBlank(text[e..o])
  {
    hide IsSpace, NameLength, SpaceLength;
    NameIsName(text[d + 1..]);
    SpaceIsSpace(text[e..]);
    assert text[d + 1..][..e - d - 1] == text[d + 1..e] && text[e..][..o - e] == text[e..o];
  }

  /** A scanned item is a placed binding. */
  lemma ItemIsPlaced(text: string) returns (b: Binding)
    requires ScanOne(text).Item?
    ensures ScanOne(text).at <= |text| && b.Placed(text[ScanOne(text).at..]) && b.Text(text[ScanOne(text).at..]) == text
  {
    hide Compact, CloseAt, FirstDot, NameLength, SpaceLength, BalancedFrom, Binding.Text, Inert, IsName, IsBlank;
    var d := FirstDot(text);
    var e := d + 1 + NameLength(text[d + 1..]);
    var o := e + SpaceLength(text[e..]);
    var c := o + 1 + CloseAt(text[o + 1..], 1).value;
    CloseIffBalanced(text[o + 1..], 0, c - o - 1);
    assert text[o + 1..][..c - o - 1] == text[o + 1..c];
    JoinText(text, d, e, o, c);
    b := Binding(text[..d], text[d + 1..e], text[e..o], text[o + 1..c]);
    PartsAre(text, d, e, o);
    FirstDotIn(text, []);
    DotFreeInert(b.lead, ['.'] + b.FromName(text[c + 1..]));
  }

  lemma {:induction false} ExpectedDistinct(bs: seq<Binding>, found: map<string, string>)
    requires forall i, j :: 0 <= i < j < |bs| ==> bs[i].name != bs[j].name
    requires forall k :: 0 <= k < |bs| ==> bs[k].name !in found
    ensures var r := Expected(bs, found);
            && r.Ok?
            && r.value.Keys == found.Keys + (set k | 0 <= k < |bs| :: bs[k].name)
            && (forall k :: 0 <= k < |bs| ==> r.value[bs[k].name] == Compact(bs[k].expr))
            && (forall n :: n in found ==> r.value[n] == found[n])
    decreases |bs|
  {
    hide Compact;
    if bs != [] {
      var rest, found' := bs[1..], found[bs[0].name := Compact(bs[0].expr)];
      ExpectedDistinct(rest, found');
      var r := Expected(bs, found);
      forall k | 0 <= k < |bs| ensures bs[k].name in r.value && r.value[bs[k].name] == Compact(bs[k].expr) {
        if k > 0 { assert rest[k - 1] == bs[k]; } else { assert bs[0].name in found'; }
      }
      assert forall n :: n in found ==> n in found' && found'[n] == found[n];
      forall n | n in r.value ensures n in found.Keys + (set k | 0 <= k < |bs| :: bs[k].name) {
        if k :| 0 <= k < |rest| && rest[k].name == n { assert bs[k + 1].name == n; }
      }
    }
  }

  lemma {:induction false} ExpectedRepeated(bs: seq<Binding>, found: map<string, string>, j: nat)
    requires j < |bs| && ((exists i :: 0 <= i < j && bs[i].name == bs[j].name) || bs[j].name in found)
    requires forall i, k :: 0 <= i < k < j ==> bs[i].name != bs[k].name
    requires forall k :: 0 <= k < j ==> bs[k].name !in found
    ensures Expected(bs, found) == Err(Duplicate(bs[j].name))
    decreases |bs|
  {
    hide Compact;
    if j > 0 {
      var rest, found' := bs[1..], found[bs[0].name := Compact(bs[0].expr)];
      forall k | 0 <= k < j - 1 ensures rest[k].name !in found' {
        assert rest[k] == bs[k + 1] && bs[0].name != bs[k + 1].name;
      }
      if i :| 0 <= i < j && bs[i].name == bs[j].name {
        if i > 0 { assert rest[i - 1] == bs[i]; }
      }
      ExpectedRepeated(rest, found', j - 1);
    }
  }

  /** Nothing is invented: every reported binding is written in the text, with its expression. */
  ghost predicate WrittenIn(text: string, name: string, value: string) {
    exists b: Binding, after: string :: b.name == name && Compact(b.expr) == value && b.IsWritten()
      && b.Text(after) == text
  }

  lemma WrittenLater(pre: string, text: string, name: string, value: string)
    requires WrittenIn(text, name, value)
    ensures WrittenIn(pre + text, name, value)
  {
    hide Compact, BalancedFrom, IsSpace;
    var b: Binding, after: string :| b.name == name && Compact(b.expr) == value && b.IsWritten()
      && b.Text(after) == text;
    var b' := b.(lead := pre + b.lead);
    assert b'.FromName(after) == b.FromName(after);
    assert b'.Text(after) == pre + text;
  }

  lemma LaterSuffix(rest: string, at: nat, name: string, value: string)
    requires at <= |rest| && WrittenIn(rest[at..], name, value)
    ensures WrittenIn(rest, name, value)
  {
    hide WrittenIn;
    WrittenLater(rest[..at], rest[at..], name, value);
    assert rest[..at] + rest[at..] == rest;
  }

  lemma JoinText(rest: string, d: nat, e: nat, o: nat, c: nat)
    requires d < e <= o < c < |rest| && rest[d] == '.' && rest[o] == '(' && rest[c] == ')'
    ensures Binding(rest[..d], rest[d + 1..e], rest[e..o], rest[o + 1..c]).Text(rest[c + 1..]) == rest
  {
    var b := Binding(rest[..d], rest[d + 1..e], rest[e..o], rest[o + 1..c]);
    var after := rest[c + 1..];
    assert rest[o + 1..] == b.FromExpr(after);
    assert rest[e..] == b.FromGap(after);
    assert rest[d + 1..] == b.FromName(after);
  }

  lemma {:induction false} NameTailIsName(s: string)
    ensures forall k :: 0 <= k < NameTail(s) ==> IsNameChar(s[k])
  {
    hide IsNameChar;
    if s != [] && IsNameChar(s[0]) { NameTailIsName(s[1..]); }
  }

  /** The scanned name is an identifier. */
  lemma NameIsName(s: string)
    requires NameLength(s) > 0
    ensures IsNameStart(s[..NameLength(s)][0])
    ensures forall k :: 0 <= k < NameLength(s) ==> IsNameChar(s[..NameLength(s)][k])
  {
    NameTailIsName(s[1..]);
    forall k | 0 <= k < NameLength(s) ensures IsNameChar(s[k]) {
      if k > 0 { assert IsNameChar(s[1..][k - 1]); }
    }
  }

  /** The scanned gap is white space. */
  lemma {:induction false} SpaceIsSpace(s: string)
    ensures forall k :: 0 <= k < SpaceLength(s) ==> IsSpace(s[..SpaceLength(s)][k])
  {
    hide IsSpace;
    if s != [] && IsSpace(s[0]) {
      SpaceIsSpace(s[1..]);
      forall k | 0 <= k < SpaceLength(s) ensures IsSpace(s[k]) {
        if k > 0 { assert IsSpace(s[1..][..SpaceLength(s[1..])][k - 1]); }
      }
    }
  }

  /** A scanned item is written where it was found. */
  lemma ScannedIsWritten(rest: string)
    requires ScanOne(rest).Item?
    ensures WrittenIn(rest, ScanOne(rest).name, Compact(ScanOne(rest).expr))
  {
    hide Compact, CloseAt, FirstDot, NameLength, SpaceLength, BalancedFrom, Binding.Text;
    var d := FirstDot(rest);
    var e := d + 1 + NameLength(rest[d + 1..]);
    var o := e + SpaceLength(rest[e..]);
    var c := o + 1 + CloseAt(rest[o + 1..], 1).value;
    CloseIffBalanced(rest[o + 1..], 0, c - o - 1);
    assert rest[o + 1..][..c - o - 1] == rest[o + 1..c];
    JoinText(rest, d, e, o, c);
    var b := Binding(rest[..d], rest[d + 1..e], rest[e..o], rest[o + 1..c]);
    NameIsName(rest[d + 1..]);
    SpaceIsSpace(rest[e..]);
    assert rest[d + 1..][..e - d - 1] == b.name && rest[e..][..o - e] == b.gap;
    assert b.name == ScanOne(rest).name && b.expr == ScanOne(rest).expr;
  }

  /** Every reported binding is written in the text. */
  lemma {:induction false} NothingInvented(rest: string, found: map<string, string>, name: string)
    requires Parse(rest, found).Ok? && name in Parse(rest, found).value
    ensures (name in found && found[name] == Parse(rest, found).value[name])
            || WrittenIn(rest, name, Parse(rest, found).value[name])
    decreases |rest|
  {
    hide ScanOne, Compact, WrittenIn;
    var value := Parse(rest, found).value[name];
    match ScanOne(rest)
    case Nothing =>
    case Skipped(at) =>
      NothingInvented(rest[at..], found, name);
      if WrittenIn(rest[at..], name, value) { LaterSuffix(rest, at, name, value); }
    case Item(n, expr, at) =>
      NothingInvented(rest[at..], found[n := Compact(expr)], name);
      ScannedIsWritten(rest);
      if WrittenIn(rest[at..], name, value) { LaterSuffix(rest, at, name, value); }
  }

  // ---------- The whole scanner ----------

  /** What the scanner owes for a decomposed text. */
  ghost predicate Answers(bs: seq<Binding>, tail: string, r: Result<map<string, string>, ParseError>) {
    || (&& Distinct(bs) && Quiet(tail) && r.Ok?
        && r.value.Keys == (set k | 0 <= k < |bs| :: bs[k].name)
        && forall k :: 0 <= k < |bs| ==> r.value[bs[k].name] == Compact(bs[k].expr))
    || (Distinct(bs) && Unclosed(tail) && r == Err(Unterminated))
    || (exists j: nat :: FirstRepeat(bs, j) && r == Err(Duplicate(bs[j].name)))
  }

  /** The text is some written bindings with inert text between them, and the answer fits them. */
  ghost predicate Reads(text: string, r: Result<map<string, string>, ParseError>) {
    exists bs: seq<Binding>, tail: string :: text == Render(bs, tail) && AllPlaced(bs, tail) && Answers(bs, tail, r)
  }

  lemma DistinctSnoc(bs: seq<Binding>, n: nat)
    requires 1 <= n <= |bs| && Distinct(bs[..n - 1]) && forall i :: 0 <= i < n - 1 ==> bs[i].name != bs[n - 1].name
    ensures Distinct(bs[..n])
  {
    forall i, k | 0 <= i < k < n ensures bs[..n][i].name != bs[..n][k].name {
      if k < n - 1 { assert bs[..n - 1][i].name != bs[..n - 1][k].name; }
    }
  }

  lemma {:induction false} SomeFirstRepeat(bs: seq<Binding>, n: nat) returns (j: nat)
    requires 1 <= n <= |bs| && !Distinct(bs[..n])
    ensures FirstRepeat(bs, j)
    decreases n
  {
    if Distinct(bs[..n - 1]) {
      j := n - 1;
      forall i, k | 0 <= i < k < j ensures bs[i].name != bs[k].name {
        assert bs[..n - 1][i].name != bs[..n - 1][k].name;
      }
      if forall i :: 0 <= i < n - 1 ==> bs[i].name != bs[n - 1].name { DistinctSnoc(bs, n); }
    } else {
      j := SomeFirstRepeat(bs, n - 1);
    }
  }

  lemma ParseReads(text: string)
    ensures Reads(text, Parse(text, map[]))
  {
    hide Parse, Compact, Render, Quiet, Unclosed, AllPlaced;
    var bs, tail := Decomposes(text);
    RoundTrip(bs, tail);
    if !Distinct(bs) {
      assert bs[..|bs|] == bs;
      var j := SomeFirstRepeat(bs, |bs|);
    }
    assert Answers(bs, tail, Parse(text, map[]));
  }

  method ParseNamedBindings(body: string) returns (r: Result<map<string, string>, ParseError>)
    ensures r == Parse(body, map[]) && Reads(body, r)
  {
    hide ScanOne, Compact, Reads;
    ParseReads(body);
    var bindings: map<string, string> := map[];
    var index := 0;
    assert body[0..] == body;
    while index < |body|
      invariant 0 <= index <= |body|
      invariant Parse(body[index..], bindings) == Parse(body, map[])
    {
      var f := ScanAt(body, index);
      match f {
        case Nothing =>
          return Ok(bindings);
        case Broken =>
          return Err(Unterminated);
        case Skipped(at) =>
          SliceOfSlice(body, index, at);
          index := index + at;
        case Item(name, expr, at) =>
          if name in bindings { return Err(Duplicate(name)); }
          SliceOfSlice(body, index, at);
          bindings := bindings[name := Compact(expr)];
          index := index + at;
      }
    }
    assert body[index..] == [];
    EmptyParse(bindings);
    return Ok(bindings);
  }
}
