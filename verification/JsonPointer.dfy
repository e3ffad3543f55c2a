/** Local $ref resolution: section 4 of RFC 6901 over nested objects. */
module JsonPointer {
  import opened Text
  import opened Json

  datatype RefError = External | Unresolved | NotAnObject

  /** str.split("/"): always at least one piece. */
  function Split(s: string): (parts: seq<string>)
    ensures |parts| >= 1
  {
    if s == [] then [[]]
    else if s[0] == '/' then [[]] + Split(s[1..])
    else
      var parts := Split(s[1..]);
      [[s[0]] + parts[0]] + parts[1..]
  }

  /** The decoding in the code: "~1" first, then "~0". */
  function Decode(raw: string): string { Replace(Replace(raw, "~1", "/"), "~0", "~") }

  /** Reference decoding: one pass, each escape read where it stands. */
  function DecodeOnce(raw: string): string {
    if raw == [] then []
    else if "~1" <= raw then ['/'] + DecodeOnce(raw[2..])
    else if "~0" <= raw then ['~'] + DecodeOnce(raw[2..])
    else [raw[0]] + DecodeOnce(raw[1..])
  }

  lemma PrefixOfTwo(t: string, a: char, b: char)
    ensures [a, b] <= t <==> |t| >= 2 && t[0] == a && t[1] == b
  {
    if |t| >= 2 {
      assert t[..2] == [t[0], t[1]];
      assert [a, b] == t[..2] ==> [a, b][0] == t[0] && [a, b][1] == t[1];
    }
  }

  lemma ReplaceSkips(c: char, s: string, a: char, b: char, replacement: string)
    requires c != a || s == [] || s[0] != b
    ensures Replace([c] + s, [a, b], replacement) == [c] + Replace(s, [a, b], replacement)
  {
    var t := [c] + s;
    assert t[1..] == s;
    PrefixOfTwo(t, a, b);
  }

  lemma ReplaceHits(s: string, target: string, replacement: string)
    requires target != []
    ensures Replace(target + s, target, replacement) == replacement + Replace(s, target, replacement)
  {
    assert (target + s)[|target|..] == s;
  }

  /** The two ordered replacements are the one-pass decoding, on every string. */
  lemma {:induction false} DecodeIsOnePass(raw: string)
    ensures Decode(raw) == DecodeOnce(raw)
    decreases |raw|
  {
    hide Replace, DecodeOnce;
    DecodeOnceCases(raw);
    if raw == [] {
      EmptyReplace();
    } else if "~1" <= raw {
      var rest := raw[2..];
      assert raw == "~1" + rest;
      DecodeIsOnePass(rest);
      ReplaceHits(rest, "~1", "/");
      ReplaceSkips('/', Replace(rest, "~1", "/"), '~', '0', "~");
    } else if "~0" <= raw {
      var rest := raw[2..];
      assert raw == ['~'] + (['0'] + rest) && raw == "~0" + rest;
      DecodeIsOnePass(rest);
      ReplaceSkips('~', ['0'] + rest, '~', '1', "/");
      ReplaceSkips('0', rest, '~', '1', "/");
      var once := Replace(rest, "~1", "/");
      assert ['~'] + (['0'] + once) == "~0" + once;
      ReplaceHits(once, "~0", "~");
    } else {
      var c, rest := raw[0], raw[1..];
      assert raw == [c] + rest;
      DecodeIsOnePass(rest);
      PlainHead(raw);
      ReplaceSkips(c, rest, '~', '1', "/");
      FirstAfterReplace(rest);
      ReplaceSkips(c, Replace(rest, "~1", "/"), '~', '0', "~");
    }
  }

  lemma PlainHead(raw: string)
    requires raw != []
    ensures !("~1" <= raw) ==> raw[0] != '~' || |raw| == 1 || raw[1] != '1'
    ensures !("~0" <= raw) ==> raw[0] != '~' || |raw| == 1 || raw[1] != '0'
    ensures "~0" <= raw ==> raw[1] == '0'
    ensures "~1" <= raw ==> raw[1] == '1'
  {
    PrefixOfTwo(raw, '~', '1');
    PrefixOfTwo(raw, '~', '0');
  }

  lemma DecodeOnceCases(raw: string)
    ensures raw == [] ==> DecodeOnce(raw) == []
    ensures "~1" <= raw ==> DecodeOnce(raw) == ['/'] + DecodeOnce(raw[2..])
    ensures "~0" <= raw ==> DecodeOnce(raw) == ['~'] + DecodeOnce(raw[2..])
    ensures raw != [] && !("~1" <= raw) && !("~0" <= raw) ==> DecodeOnce(raw) == [raw[0]] + DecodeOnce(raw[1..])
  {
    if raw != [] { PlainHead(raw); }
  }

  lemma EmptyReplace()
    ensures Replace([], "~1", "/") == [] && Replace([], "~0", "~") == []
  {
  }

  /** Replacing "~1" never puts a '0' in front that was not there. */
  lemma FirstAfterReplace(s: string)
    ensures Replace(s, "~1", "/") != [] && Replace(s, "~1", "/")[0] == '0' ==> s != [] && s[0] == '0'
  {
  }

  // ---------- Encoding, as the standard defines it ----------

  function Escape(token: string): string {
    if token == [] then []
    else (if token[0] == '~' then "~0" else if token[0] == '/' then "~1" else [token[0]]) + Escape(token[1..])
  }

  function Join(parts: seq<string>): string
    requires parts != []
  {
    if |parts| == 1 then parts[0] else parts[0] + (['/'] + Join(parts[1..]))
  }

  function EscapeAll(tokens: seq<string>): (parts: seq<string>)
    ensures |parts| == |tokens|
  {
    if tokens == [] then [] else [Escape(tokens[0])] + EscapeAll(tokens[1..])
  }

  function DecodeAll(parts: seq<string>): (tokens: seq<string>)
    ensures |tokens| == |parts| && forall k :: 0 <= k < |parts| ==> tokens[k] == DecodeOnce(parts[k])
  {
    if parts == [] then [] else [DecodeOnce(parts[0])] + DecodeAll(parts[1..])
  }

  lemma {:induction false} EscapeInverts(token: string)
    ensures DecodeOnce(Escape(token)) == token
    ensures '/' !in Escape(token)
  {
    hide DecodeOnce;
    if token == [] {
      DecodeOnceCases([]);
    } else {
      var rest := Escape(token[1..]);
      EscapeInverts(token[1..]);
      var e := Escape(token);
      DecodeOnceCases(e);
      if token[0] == '~' || token[0] == '/' {
        assert e[2..] == rest;
      } else {
        assert e[1..] == rest;
      }
    }
  }

  lemma {:induction false} SplitPiece(part: string, s: string)
    requires '/' !in part
    ensures Split(part + (['/'] + s)) == [part] + Split(s)
    ensures Split(part) == [part]
  {
    var t := part + (['/'] + s);
    if part == [] {
      assert t == ['/'] + s && t[1..] == s;
    } else {
      assert part[0] in part;
      SplitPiece(part[1..], s);
      assert t[1..] == part[1..] + (['/'] + s);
      assert part == [part[0]] + part[1..];
    }
  }

  /** Joining after a slash or a letter was put in front of the first piece. */
  lemma {:induction false} JoinCons(c: char, parts: seq<string>)
    requires parts != []
    ensures Join([[]] + parts) == ['/'] + Join(parts)
    ensures Join([[c] + parts[0]] + parts[1..]) == [c] + Join(parts)
  {
    assert ([[]] + parts)[1..] == parts;
    var q := [[c] + parts[0]] + parts[1..];
    if |parts| > 1 { assert q[1..] == parts[1..]; }
  }

  lemma JoinOne(part: string)
    ensures Join([part]) == part
  {
  }

  /** Splitting loses nothing: joining the pieces restores every string. */
  lemma {:induction false} JoinSplit(s: string)
    ensures Join(Split(s)) == s
    ensures forall k :: 0 <= k < |Split(s)| ==> '/' !in Split(s)[k]
  {
    hide Join;
    if s == [] {
      assert Join([[]]) == [] by { JoinOne([]); }
    } else {
      var parts := Split(s[1..]);
      JoinSplit(s[1..]);
      JoinCons(s[0], parts);
      assert s == [s[0]] + s[1..];
    }
  }

  lemma {:induction false} SplitJoined(tokens: seq<string>)
    requires tokens != []
    ensures Split(Join(EscapeAll(tokens))) == EscapeAll(tokens)
    ensures DecodeAll(EscapeAll(tokens)) == tokens
  {
    hide Split, Escape, DecodeOnce;
    EscapeInverts(tokens[0]);
    if |tokens| == 1 {
      SplitPiece(Escape(tokens[0]), []);
    } else {
      SplitJoined(tokens[1..]);
      SplitPiece(Escape(tokens[0]), Join(EscapeAll(tokens[1..])));
    }
  }

  // ---------- Resolution ----------

  /** Walking down decoded tokens. */
  function Walk(value: Json, tokens: seq<string>): Result<Json, RefError> {
    if tokens == [] then Ok(value)
    else if !value.Obj? || tokens[0] !in value.fields then Err(Unresolved)
    else Walk(value.fields[tokens[0]], tokens[1..])
  }

  /** The object a token list names. */
  function Lookup(root: Json, tokens: seq<string>): Result<Json, RefError> {
    var v := Walk(root, tokens);
    if v.Ok? && !v.value.Obj? then Err(NotAnObject) else v
  }

  /** Value by value, vs follows the tokens down from its first element. */
  ghost predicate Links(vs: seq<Json>, tokens: seq<string>) {
    && 1 <= |vs| <= |tokens| + 1
    && forall i :: 0 <= i < |vs| - 1 ==> vs[i].Obj? && tokens[i] in vs[i].fields && vs[i + 1] == vs[i].fields[tokens[i]]
  }

  /** A chain of members along all tokens leads from root to v. */
  ghost predicate Reaches(root: Json, tokens: seq<string>, v: Json) {
    exists vs: seq<Json> :: Links(vs, tokens) && |vs| == |tokens| + 1 && vs[0] == root && vs[|tokens|] == v
  }

  /** The chain of members ends early: its last value is no object or lacks the next token. */
  ghost predicate Breaks(root: Json, tokens: seq<string>) {
    exists vs: seq<Json> :: Links(vs, tokens) && |vs| <= |tokens| && vs[0] == root
      && (vs[|vs| - 1].Obj? ==> tokens[|vs| - 1] !in vs[|vs| - 1].fields)
  }

  /** What resolution owes the caller. */
  ghost predicate Resolves(root: Json, tokens: seq<string>, r: Result<Json, RefError>) {
    && (forall v :: r == Ok(v) <==> v.Obj? && Reaches(root, tokens, v))
    && (r == Err(NotAnObject) <==> exists v: Json :: !v.Obj? && Reaches(root, tokens, v))
    && (r == Err(Unresolved) <==> Breaks(root, tokens))
  }

  predicate StepsInto(value: Json, token: string) { value.Obj? && token in value.fields }

  lemma LinksCons(root: Json, vs: seq<Json>, tokens: seq<string>)
    requires tokens != [] && StepsInto(root, tokens[0])
    requires vs != [] && vs[0] == root.fields[tokens[0]] && Links(vs, tokens[1..])
    ensures Links([root] + vs, tokens)
  {
    var ws := [root] + vs;
    forall i | 0 <= i < |ws| - 1
      ensures ws[i].Obj? && tokens[i] in ws[i].fields && ws[i + 1] == ws[i].fields[tokens[i]]
    {
      if i > 0 { assert vs[i - 1].Obj? && tokens[1..][i - 1] in vs[i - 1].fields; }
    }
  }

  lemma LinksTail(vs: seq<Json>, tokens: seq<string>)
    requires Links(vs, tokens) && |vs| >= 2
    ensures StepsInto(vs[0], tokens[0]) && vs[1] == vs[0].fields[tokens[0]]
    ensures Links(vs[1..], tokens[1..])
  {
    assert vs[0].Obj? && vs[0 + 1] == vs[0].fields[tokens[0]];
    var ws, ts := vs[1..], tokens[1..];
    forall i | 0 <= i < |ws| - 1 ensures ws[i].Obj? && ts[i] in ws[i].fields && ws[i + 1] == ws[i].fields[ts[i]] {
      assert vs[i + 1].Obj? && vs[i + 1 + 1] == vs[i + 1].fields[tokens[i + 1]];
    }
  }

  lemma ReachesCons(root: Json, tokens: seq<string>, v: Json)
    requires tokens != []
    ensures Reaches(root, tokens, v) <==>
              StepsInto(root, tokens[0]) && Reaches(root.fields[tokens[0]], tokens[1..], v)
  {
    hide Links;
    if Reaches(root, tokens, v) {
      var vs: seq<Json> :| Links(vs, tokens) && |vs| == |tokens| + 1 && vs[0] == root && vs[|tokens|] == v;
      LinksTail(vs, tokens);
      assert vs[1..][|tokens| - 1] == v;
    }
    if StepsInto(root, tokens[0]) && Reaches(root.fields[tokens[0]], tokens[1..], v) {
      var vs: seq<Json> :| Links(vs, tokens[1..]) && |vs| == |tokens| && vs[0] == root.fields[tokens[0]] && vs[|tokens| - 1] == v;
      LinksCons(root, vs, tokens);
      assert ([root] + vs)[|tokens|] == v;
    }
  }

  lemma BreaksCons(root: Json, tokens: seq<string>)
    requires tokens != []
    ensures Breaks(root, tokens) <==>
              !StepsInto(root, tokens[0]) || Breaks(root.fields[tokens[0]], tokens[1..])
  {
    if Breaks(root, tokens) && StepsInto(root, tokens[0]) {
      var vs: seq<Json> :| Links(vs, tokens) && |vs| <= |tokens| && vs[0] == root
        && (vs[|vs| - 1].Obj? ==> tokens[|vs| - 1] !in vs[|vs| - 1].fields);
      LinksTail(vs, tokens);
      var ws, ts := vs[1..], tokens[1..];
      assert ws[|ws| - 1] == vs[|vs| - 1] && ts[|ws| - 1] == tokens[|vs| - 1];
    }
    if !StepsInto(root, tokens[0]) {
      assert Links([root], tokens);
    } else if Breaks(root.fields[tokens[0]], tokens[1..]) {
      var vs: seq<Json> :| Links(vs, tokens[1..]) && |vs| <= |tokens| - 1 && vs[0] == root.fields[tokens[0]]
        && (vs[|vs| - 1].Obj? ==> tokens[1..][|vs| - 1] !in vs[|vs| - 1].fields);
      LinksCons(root, vs, tokens);
      var ws := [root] + vs;
      assert ws[|ws| - 1] == vs[|vs| - 1];
    }
  }

  lemma EmptyPath(root: Json, v: Json)
    ensures Reaches(root, [], v) <==> v == root
    ensures !Breaks(root, [])
  {
    if v == root { assert Links([root], []); }
  }

  /** The walk is the chain. */
  lemma {:induction false} WalkReaches(root: Json, tokens: seq<string>)
    ensures forall v :: Walk(root, tokens) == Ok(v) <==> Reaches(root, tokens, v)
    ensures Walk(root, tokens) == Err(Unresolved) <==> Breaks(root, tokens)
    ensures Walk(root, tokens).Err? ==> Walk(root, tokens).error == Unresolved
    decreases |tokens|
  {
    hide Reaches, Breaks;
    forall v ensures tokens == [] ==> (Reaches(root, tokens, v) <==> v == root) && !Breaks(root, tokens) {
      EmptyPath(root, v);
    }
    if tokens != [] {
      if StepsInto(root, tokens[0]) { WalkReaches(root.fields[tokens[0]], tokens[1..]); }
      forall v ensures Reaches(root, tokens, v) <==>
                         StepsInto(root, tokens[0]) && Reaches(root.fields[tokens[0]], tokens[1..], v) {
        ReachesCons(root, tokens, v);
      }
      BreaksCons(root, tokens);
    }
  }

  lemma LookupMeaning(root: Json, tokens: seq<string>)
    ensures Resolves(root, tokens, Lookup(root, tokens))
    ensures Lookup(root, tokens) != Err(External)
  {
    hide Reaches, Breaks, Walk;
    WalkReaches(root, tokens);
    var w := Walk(root, tokens);
    if w.Ok? { assert Reaches(root, tokens, w.value); }
  }

  method ResolveLocalRef(root: Json, ref: string) returns (r: Result<Json, RefError>)
    ensures r == Err(External) <==> !("#/" <= ref)
    ensures "#/" <= ref ==> Resolves(root, DecodeAll(Split(ref[2..])), r)
    ensures "#/" <= ref ==> r == Lookup(root, DecodeAll(Split(ref[2..])))
  {
    hide DecodeOnce, Split, Replace, Resolves;
    if "#/" <= ref { LookupMeaning(root, DecodeAll(Split(ref[2..]))); }
    if !("#/" <= ref) { return Err(External); }
    var value := root;
    var parts := Split(ref[2..]);
    ghost var all := Walk(root, DecodeAll(parts));
    var k := 0;
    assert parts[0..] == parts;
    while k < |parts|
      invariant 0 <= k <= |parts|
      invariant Walk(value, DecodeAll(parts[k..])) == all
    {
      DecodeIsOnePass(parts[k]);
      var part := Decode(parts[k]);
      assert DecodeAll(parts[k..]) == [part] + DecodeAll(parts[k + 1..]) by {
        assert parts[k..][1..] == parts[k + 1..];
      }
      assert DecodeAll(parts[k..])[1..] == DecodeAll(parts[k + 1..]);
      if !value.Obj? || part !in value.fields { return Err(Unresolved); }
      value := value.fields[part];
      k := k + 1;
    }
    assert parts[k..] == [];
    if !value.Obj? { return Err(NotAnObject); }
    return Ok(value);
  }

  /** Every non-empty token list, whatever its characters, survives encoding: the escaped pointer
      resolves to v exactly when v is an object and the tokens themselves lead to it. */
  lemma PointerRoundTrip(root: Json, tokens: seq<string>, v: Json)
    requires tokens != []
    ensures var ref := "#/" + Join(EscapeAll(tokens));
            && "#/" <= ref
            && (Lookup(root, DecodeAll(Split(ref[2..]))) == Ok(v) <==> v.Obj? && Reaches(root, tokens, v))
  {
    hide Lookup, DecodeAll, Split, Join, EscapeAll, Reaches, Breaks;
    SplitJoined(tokens);
    var ref := "#/" + Join(EscapeAll(tokens));
    assert ref[2..] == Join(EscapeAll(tokens));
    LookupMeaning(root, tokens);
  }

  /** The document that holds leaf under the tokens and nothing else. */
  function Nest(tokens: seq<string>, leaf: Json): Json {
    if tokens == [] then leaf else Obj(map[tokens[0] := Nest(tokens[1..], leaf)])
  }

  lemma {:induction false} NestReaches(tokens: seq<string>, leaf: Json)
    ensures Reaches(Nest(tokens, leaf), tokens, leaf)
    decreases |tokens|
  {
    hide Reaches;
    if tokens == [] {
      EmptyPath(leaf, leaf);
    } else {
      NestReaches(tokens[1..], leaf);
      ReachesCons(Nest(tokens, leaf), tokens, leaf);
    }
  }

  /** Resolving the escaped pointer in the nested document finds the leaf again. */
  method ResolveNested(tokens: seq<string>, leaf: Json) returns (r: Result<Json, RefError>)
    requires tokens != [] && leaf.Obj?
    ensures r == Ok(leaf)
  {
    hide Lookup, DecodeAll, Split, Join, EscapeAll, Reaches, Breaks, Nest, Resolves;
    var root := Nest(tokens, leaf);
    PointerRoundTrip(root, tokens, leaf);
    NestReaches(tokens, leaf);
    r := ResolveLocalRef(root, "#/" + Join(EscapeAll(tokens)));
  }
}
