/** tcl_string: double-quoting a value for a Tcl script by five ordered replacements. */
module TclQuote {
  import opened Text

  /** The replaced characters in the order of the code. */
  const ORDER := ['\\', '\"', '$', '[', ']']

  const SPECIALS := {'\\', '\"', '$', '[', ']'}

  /** One backslash in front of every character of the set, in one pass. */
  function EscapeSet(value: string, marked: set<char>): string {
    if value == [] then []
    else (if value[0] in marked then ['\\', value[0]] else [value[0]]) + EscapeSet(value[1..], marked)
  }

  function Special(n: nat): set<char>
    requires n <= |ORDER|
  {
    if n == 0 then {} else Special(n - 1) + {ORDER[n - 1]}
  }

  lemma ReplaceChar(c: char, x: char, s: string, replacement: string)
    ensures Replace([x] + s, [c], replacement) == (if x == c then replacement else [x]) + Replace(s, [c], replacement)
  {
    var t := [x] + s;
    assert t[1..] == s && t[..1] == [x];
    assert [c] <= t <==> x == c by { if [c] <= t { assert t[0] == [c][0]; } }
  }

  /** Replacing one more character after the escapes of an earlier set: since it is not the
      backslash, the pass does not disturb what is already escaped. */
  lemma {:induction false} ReplaceExtends(value: string, marked: set<char>, c: char)
    requires c !in marked && (c != '\\' || marked == {})
    ensures Replace(EscapeSet(value, marked), [c], ['\\', c]) == EscapeSet(value, marked + {c})
  {
    hide Replace;
    if value == [] {
      assert Replace([], [c], ['\\', c]) == [] by { NothingToReplace(c); }
    } else {
      var x, rest := value[0], EscapeSet(value[1..], marked);
      ReplaceExtends(value[1..], marked, c);
      ReplaceChar(c, x, rest, ['\\', c]);
      if x in marked {
        assert EscapeSet(value, marked) == ['\\'] + ([x] + rest);
        ReplaceChar(c, '\\', [x] + rest, ['\\', c]);
      }
    }
  }

  lemma NothingToReplace(c: char)
    ensures Replace([], [c], ['\\', c]) == []
  {
  }

  lemma {:induction false} EscapeNothing(value: string)
    ensures EscapeSet(value, {}) == value
  {
    if value != [] { EscapeNothing(value[1..]); }
  }

  lemma SpecialIs(n: nat)
    requires n < |ORDER|
    ensures ORDER[n] !in Special(n) && (ORDER[n] == '\\' ==> n == 0)
    ensures Special(5) == SPECIALS
  {
    assert Special(1) == {'\\'} && Special(2) == {'\\', '\"'} && Special(3) == {'\\', '\"', '$'};
    assert Special(4) == {'\\', '\"', '$', '['};
  }

  /** The five successive replacements are one escaping pass over the value. */
  method TclString(value: string) returns (quoted: string)
    ensures quoted == ['\"'] + EscapeSet(value, SPECIALS) + ['\"']
  {
    var text := value;
    EscapeNothing(value);
    for n := 0 to |ORDER|
      invariant text == EscapeSet(value, Special(n))
    {
      hide Replace, EscapeSet;
      SpecialIs(n);
      ReplaceExtends(value, Special(n), ORDER[n]);
      text := Replace(text, [ORDER[n]], ['\\', ORDER[n]]);
    }
    SpecialIs(0);
    quoted := ['\"'] + text + ['\"'];
  }

  /** Tcl's backslash sequences on one character: the seven letters name control characters, octal
      digits, x, u, U and the line break start longer sequences, and anything else stands for itself. */
  function Unescape(c: char): Option<char> {
    if c == 'a' then Some(7 as char)
    else if c == 'b' then Some(8 as char)
    else if c == 't' then Some(9 as char)
    else if c == 'n' then Some(10 as char)
    else if c == 'v' then Some(11 as char)
    else if c == 'f' then Some(12 as char)
    else if c == 'r' then Some(13 as char)
    else if '0' <= c <= '7' || c == 'x' || c == 'u' || c == 'U' || c == '\n' then None
    else Some(c)
  }

  /** Reading a Tcl double-quoted word after its opening quote: the value and the text behind the
      closing quote. None when a substitution or a longer backslash sequence would start or the word
      does not end. */
  function ReadQuoted(s: string): Option<(string, string)> {
    if s == [] || s[0] == '$' || s[0] == '[' then None
    else if s[0] == '\"' then Some(("", s[1..]))
    else if s[0] == '\\' then
      var c := if |s| == 1 then None else Unescape(s[1]);
      if c.None? then None
      else
        var r := ReadQuoted(s[2..]);
        if r.None? then None else Some(([c.value] + r.value.0, r.value.1))
    else
      var r := ReadQuoted(s[1..]);
      if r.None? then None else Some(([s[0]] + r.value.0, r.value.1))
  }

  /** One escaped character in front of text that reads. */
  lemma ReadStep(x: char, rest: string)
    requires ReadQuoted(rest).Some?
    ensures ReadQuoted((if x in SPECIALS then ['\\', x] else [x]) + rest)
         == Some(([x] + ReadQuoted(rest).value.0, ReadQuoted(rest).value.1))
  {
    var s := (if x in SPECIALS then ['\\', x] else [x]) + rest;
    assert s[if x in SPECIALS then 2 else 1..] == rest;
    if x in SPECIALS { assert s[1] == x && Unescape(x) == Some(x); }
  }

  lemma {:induction false} EscapeCons(value: string)
    requires value != []
    ensures EscapeSet(value, SPECIALS)
         == (if value[0] in SPECIALS then ['\\', value[0]] else [value[0]]) + EscapeSet(value[1..], SPECIALS)
  {
  }

  /** Exactly the backslash, the quote, the dollar sign and the two brackets get a backslash, wherever
      they stand; every other character is copied. */
  lemma {:induction false} EscapedAnywhere(before: string, c: char, after: string)
    ensures EscapeSet(before + ([c] + after), SPECIALS)
         == EscapeSet(before, SPECIALS)
            + ((if c == '\\' || c == '\"' || c == '$' || c == '[' || c == ']' then ['\\', c] else [c])
               + EscapeSet(after, SPECIALS))
  {
    hide EscapeSet;
    var all := before + ([c] + after);
    EscapeCons(all);
    if before == [] {
      assert all[1..] == after;
      assert EscapeSet([], SPECIALS) == [] by { EscapeEmpty(); }
    } else {
      assert all[1..] == before[1..] + ([c] + after);
      EscapeCons(before);
      EscapedAnywhere(before[1..], c, after);
    }
  }

  lemma EscapeEmpty()
    ensures EscapeSet([], SPECIALS) == []
  {
  }

  /** Tcl reads the quoted form back as the original value, without any substitution, and stops
      exactly at its closing quote whatever follows. */
  lemma {:induction false} ReadsBack(value: string, after: string)
    ensures ReadQuoted(EscapeSet(value, SPECIALS) + (['\"'] + after)) == Some((value, after))
  {
    if value == [] {
      assert EscapeSet(value, SPECIALS) + (['\"'] + after) == ['\"'] + after;
    } else {
      hide ReadQuoted, EscapeSet;
      ReadsBack(value[1..], after);
      var first := if value[0] in SPECIALS then ['\\', value[0]] else [value[0]];
      var escaped := EscapeSet(value[1..], SPECIALS);
      EscapeCons(value);
      assert first + escaped + (['\"'] + after) == first + (escaped + (['\"'] + after));
      ReadStep(value[0], escaped + (['\"'] + after));
      assert [value[0]] + value[1..] == value;
    }
  }
}
