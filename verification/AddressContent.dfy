/** What the semantic projection contains, entry by entry, in terms of the raw document: exactly the
    selected fields, and the row lists in key order. */
module AddressContent {
  import opened Text
  import opened Json
  import opened StableSort
  import opened AddressMap

  // ---------- Selections ----------

  /** Both maps have every listed key, with one value. */
  ghost predicate AgreeOn(m: Fields, m': Fields, keys: seq<string>) {
    forall k :: k in keys ==> k in m && k in m' && m[k] == m'[k]
  }

  ghost predicate Only(own: Fields, keys: seq<string>, extra: set<string>) {
    forall k :: k in own ==> k in keys || k in extra
  }

  /** own has exactly the listed keys, with the values of m. */
  ghost predicate Picks(own: Fields, m: Fields, keys: seq<string>) { Only(own, keys, {}) && AgreeOn(own, m, keys) }

  /** The same for two objects. */
  ghost predicate PicksFrom(v: Json, source: Json, keys: seq<string>) {
    v.Obj? && source.Obj? && Picks(v.fields, source.fields, keys)
  }

  /** A selection, possibly with further entries beside it. */
  lemma MergeIff(own: Fields, m: Fields, keys: seq<string>, path: Path, extra: Fields)
    requires forall k :: k in extra ==> k !in keys
    ensures Select(m, keys, path).Ok? && own == Select(m, keys, path).value + extra <==>
              && Only(own, keys, extra.Keys) && AgreeOn(own, m, keys)
              && forall k :: k in extra ==> k in own && own[k] == extra[k]
  {
    hide Select;
    SelectMeaning(m, keys, path);
    if Only(own, keys, extra.Keys) && AgreeOn(own, m, keys) && forall k :: k in extra ==> k in own && own[k] == extra[k] {
      forall k | 0 <= k < |keys| ensures keys[k] in m { assert keys[k] in keys; }
      assert own == Select(m, keys, path).value + extra;
    }
  }

  lemma SelectIff(m: Fields, keys: seq<string>, path: Path, own: Fields)
    ensures Select(m, keys, path) == Ok(own) <==> Picks(own, m, keys)
  {
    hide Select;
    MergeIff(own, m, keys, path, map[]);
    if Select(m, keys, path).Ok? { assert Select(m, keys, path).value + map[] == Select(m, keys, path).value; }
  }

  // ---------- Rows ----------

  ghost predicate CsrContent(own: Fields, region: Fields) {
    && Only(own, CSR_KEYS, {"access"}) && AgreeOn(own, region, CSR_KEYS)
    && PicksFrom(Get(own, "access"), Get(region, "access"), ACCESS_KEYS)
  }

  ghost predicate RingContent(own: Fields, region: Fields) {
    && Only(own, RING_KEYS, {"record_contract", "pointer_contract", "address_translation"})
    && AgreeOn(own, region, RING_KEYS)
    && PicksFrom(Get(own, "record_contract"), Get(region, "record_contract"), RECORD_KEYS)
    && PicksFrom(Get(own, "pointer_contract"), Get(region, "pointer_contract"), CURSOR_KEYS)
    && PicksFrom(Get(own, "address_translation"), Get(region, "address_translation"), TRANSLATION_KEYS)
  }

  /** The projected row of one raw item. */
  ghost predicate RowContent(clock: bool, own: Fields, raw: Json) {
    && raw.Obj?
    && if clock then Picks(own, raw.fields, ["source", "sink"])
       else if Get(raw.fields, "kind") == Str("csr") then CsrContent(own, raw.fields)
       else Get(raw.fields, "kind") == Str("ddr_ring") && RingContent(own, raw.fields)
  }

  lemma NotACsrKey()
    ensures "access" !in CSR_KEYS
  {
  }

  lemma NotARingKey()
    ensures "record_contract" !in RING_KEYS
    ensures "pointer_contract" !in RING_KEYS
  {
  }

  lemma NoTranslationKey()
    ensures "address_translation" !in RING_KEYS
    ensures "address_translation" !in CSR_BRIDGE_KEYS
  {
  }

  lemma CsrIff(region: Fields, path: Path, own: Fields)
    ensures ProjectCsr(region, path) == Ok(own) <==> CsrContent(own, region)
  {
    hide Select, Only, AgreeOn;
    NotACsrKey();
    var access := Get(region, "access");
    if access.Obj? {
      var p := path + [Key("access")];
      var sub := Select(access.fields, ACCESS_KEYS, p);
      if sub.Ok? {
        SelectIff(access.fields, ACCESS_KEYS, p, sub.value);
        MergeIff(own, region, CSR_KEYS, path, map["access" := Obj(sub.value)]);
        OneEntry(Select(region, CSR_KEYS, path), "access", Obj(sub.value));
      }
      if CsrContent(own, region) {
        SelectIff(access.fields, ACCESS_KEYS, p, own["access"].fields);
      }
    }
  }

  lemma OneEntry(base: Checked<Fields>, key: string, v: Json)
    ensures base.Ok? ==> base.value + map[key := v] == base.value[key := v]
    ensures map[key := v].Keys == {key}
  {
  }

  /** The three contracts of a ring beside its own entries. */
  function Contracts(record: Fields, cursor: Fields, translation: Fields): (extra: Fields)
    ensures extra.Keys == {"record_contract", "pointer_contract", "address_translation"}
    ensures extra["record_contract"] == Obj(record) && extra["pointer_contract"] == Obj(cursor)
    ensures extra["address_translation"] == Obj(translation)
  {
    map["record_contract" := Obj(record), "pointer_contract" := Obj(cursor), "address_translation" := Obj(translation)]
  }

  lemma ThreeEntries(base: Fields, record: Fields, cursor: Fields, translation: Fields)
    ensures base + Contracts(record, cursor, translation)
         == base["record_contract" := Obj(record)]["pointer_contract" := Obj(cursor)]
                ["address_translation" := Obj(translation)]
  {
  }

  lemma RingIff(region: Fields, path: Path, own: Fields)
    ensures ProjectRing(region, path) == Ok(own) <==> RingContent(own, region)
  {
    hide Select, Only, AgreeOn, Contracts;
    if ProjectRing(region, path) == Ok(own) { RingForward(region, path, own); }
    if RingContent(own, region) { RingBackward(region, path, own); }
  }

  lemma RingForward(region: Fields, path: Path, own: Fields)
    requires ProjectRing(region, path) == Ok(own)
    ensures RingContent(own, region)
  {
    hide Select, Only, AgreeOn, Contracts;
    var r, c, t := Get(region, "record_contract").fields, Get(region, "pointer_contract").fields,
                   Get(region, "address_translation").fields;
    var base := Select(region, RING_KEYS, path).value;
    var record := Select(r, RECORD_KEYS, path + [Key("record_contract")]).value;
    var cursor := Select(c, CURSOR_KEYS, path + [Key("pointer_contract")]).value;
    var translation := Select(t, TRANSLATION_KEYS, path + [Key("address_translation")]).value;
    SelectIff(r, RECORD_KEYS, path + [Key("record_contract")], record);
    SelectIff(c, CURSOR_KEYS, path + [Key("pointer_contract")], cursor);
    SelectIff(t, TRANSLATION_KEYS, path + [Key("address_translation")], translation);
    RingMerge(own, region, path, record, cursor, translation);
    ThreeEntries(base, record, cursor, translation);
  }

  lemma RingMerge(own: Fields, region: Fields, path: Path, record: Fields, cursor: Fields, translation: Fields)
    ensures Select(region, RING_KEYS, path).Ok?
            && own == Select(region, RING_KEYS, path).value + Contracts(record, cursor, translation) <==>
              && Only(own, RING_KEYS, {"record_contract", "pointer_contract", "address_translation"})
              && AgreeOn(own, region, RING_KEYS)
              && Get(own, "record_contract") == Obj(record) && Get(own, "pointer_contract") == Obj(cursor)
              && Get(own, "address_translation") == Obj(translation)
  {
    hide Select, Only, AgreeOn, Contracts;
    NotARingKey();
    NoTranslationKey();
    var extra := Contracts(record, cursor, translation);
    MergeIff(own, region, RING_KEYS, path, extra);
    assert (forall k :: k in extra ==> k in own && own[k] == extra[k]) <==>
             Get(own, "record_contract") == Obj(record) && Get(own, "pointer_contract") == Obj(cursor)
             && Get(own, "address_translation") == Obj(translation);
  }

  lemma RingBackward(region: Fields, path: Path, own: Fields)
    requires RingContent(own, region)
    ensures ProjectRing(region, path) == Ok(own)
  {
    hide Select, Only, AgreeOn, Contracts;
    var r, c, t := Get(region, "record_contract").fields, Get(region, "pointer_contract").fields,
                   Get(region, "address_translation").fields;
    var record, cursor, translation := Get(own, "record_contract").fields, Get(own, "pointer_contract").fields,
                                       Get(own, "address_translation").fields;
    SelectIff(r, RECORD_KEYS, path + [Key("record_contract")], record);
    SelectIff(c, CURSOR_KEYS, path + [Key("pointer_contract")], cursor);
    SelectIff(t, TRANSLATION_KEYS, path + [Key("address_translation")], translation);
    RingMerge(own, region, path, record, cursor, translation);
    ThreeEntries(Select(region, RING_KEYS, path).value, record, cursor, translation);
  }

  /** A raw item is projected to own exactly when own has its content. */
  lemma RowIff(clock: bool, raw: Json, index: nat, show: Json -> string, own: Fields)
    ensures RowOf(clock, raw, index, show) == Ok(Row(KeyOf(clock, own, show), own)) <==> RowContent(clock, own, raw)
    ensures RowOf(clock, raw, index, show).Ok? ==>
              RowOf(clock, raw, index, show).value.key == KeyOf(clock, RowOf(clock, raw, index, show).value.value, show)
  {
    hide Select, ProjectCsr, ProjectRing, CsrContent, RingContent, Picks;
    if raw.Obj? {
      if clock {
        SelectIff(raw.fields, ["source", "sink"], [Key("required_clock_connections"), At(index)], own);
      } else {
        CsrIff(raw.fields, [Key("regions"), At(index)], own);
        RingIff(raw.fields, [Key("regions"), At(index)], own);
      }
    }
  }

  /** The output list is the rows of the items at the positions p, in ascending key order, equal keys in
      the order of the document. */
  ghost predicate RowsAt(clock: bool, out: seq<Json>, items: seq<Json>, p: seq<nat>, show: Json -> string) {
    && IsPermutation(p, |items|) && |out| == |items|
    && (forall i :: 0 <= i < |out| ==> out[i].Obj? && RowContent(clock, out[i].fields, items[p[i]]))
    && (forall i, j :: 0 <= i < j < |out| ==> InOrder(clock, out[i].fields, out[j].fields, p[i] < p[j], show))
  }

  ghost predicate InOrder(clock: bool, a: Fields, b: Fields, earlier: bool, show: Json -> string) {
    var ka, kb := KeyOf(clock, a, show), KeyOf(clock, b, show);
    KeyBefore(ka, kb) || (ka == kb && earlier)
  }

  lemma SortedForward(clock: bool, items: seq<Json>, out: seq<Json>, show: Json -> string) returns (p: seq<nat>)
    requires SortedItems(clock, items, show) == Ok(out)
    ensures RowsAt(clock, out, items, p, show)
  {
    hide Rows, RowOf, Sort, RowContent, KeyOf, KeyBefore, Objects;
    var rows := Rows(clock, items, show).value;
    RowsPointwise(clock, items, show);
    p := SortArranges(rows);
    forall i | 0 <= i < |out| ensures out[i] == Obj(rows[p[i]].value) && RowContent(clock, out[i].fields, items[p[i]]) {
      assert items[p[i]] in items;
      RowIff(clock, items[p[i]], 0, show, rows[p[i]].value);
    }
    forall i, j | 0 <= i < j < |out| ensures InOrder(clock, out[i].fields, out[j].fields, p[i] < p[j], show) {
      RowIff(clock, items[p[i]], 0, show, rows[p[i]].value);
      RowIff(clock, items[p[j]], 0, show, rows[p[j]].value);
      assert items[p[i]] in items && items[p[j]] in items;
      assert Precedes(rows, p[i], p[j]);
    }
  }

  /** Every item that is listed is readable. */
  lemma ListedReadable(clock: bool, items: seq<Json>, out: seq<Json>, p: seq<nat>, show: Json -> string)
    requires RowsAt(clock, out, items, p, show)
    ensures Rows(clock, items, show).Ok? && |Rows(clock, items, show).value| == |items|
    ensures forall i :: 0 <= i < |out| ==>
              Rows(clock, items, show).value[p[i]] == Row(KeyOf(clock, out[i].fields, show), out[i].fields)
  {
    hide Rows, RowOf, RowContent, KeyOf, KeyBefore, InOrder;
    forall i | 0 <= i < |out|
      ensures RowOf(clock, items[p[i]], 0, show) == Ok(Row(KeyOf(clock, out[i].fields, show), out[i].fields))
    {
      RowIff(clock, items[p[i]], 0, show, out[i].fields);
    }
    forall x | x in items ensures RowOf(clock, x, 0, show).Ok? {
      var a :| 0 <= a < |items| && items[a] == x;
      PermutationCovers(p, |items|, a);
    }
    RowsPointwise(clock, items, show);
  }

  lemma SortedBackward(clock: bool, items: seq<Json>, out: seq<Json>, p: seq<nat>, show: Json -> string)
    requires RowsAt(clock, out, items, p, show)
    ensures SortedItems(clock, items, show) == Ok(out)
  {
    hide Rows, RowOf, Sort, RowContent, KeyOf, KeyBefore, Objects;
    ListedReadable(clock, items, out, p, show);
    var rows := Rows(clock, items, show).value;
    var t := seq(|p|, i requires 0 <= i < |p| => rows[p[i]]);
    forall i, j | 0 <= i < j < |p| ensures Precedes(rows, p[i], p[j]) {
      assert InOrder(clock, out[i].fields, out[j].fields, p[i] < p[j], show);
    }
    assert ListedAt(rows, t, p) && Arranged(rows, p);
    SortIff(rows, t);
    assert Objects(t) == out;
  }

  /** The rows of a list value in key order. */
  ghost predicate SortedFrom(clock: bool, v: Json, source: Json, show: Json -> string) {
    v.Arr? && source.Arr? && exists p :: RowsAt(clock, v.items, source.items, p, show)
  }

  lemma SortedIsList(clock: bool, v: Json, source: Json, show: Json -> string)
    requires SortedFrom(clock, v, source, show)
    ensures v.Arr?
  {
  }

  lemma SortedRowsIff(clock: bool, m: Fields, show: Json -> string, out: seq<Json>)
    ensures SortedRows(clock, m, show) == Ok(out) <==>
              SortedFrom(clock, Arr(out), Get(m, if clock then "required_clock_connections" else "regions"), show)
  {
    hide SortedItems, RowsAt;
    var source := Get(m, if clock then "required_clock_connections" else "regions");
    if source.Arr? {
      if SortedItems(clock, source.items, show) == Ok(out) {
        var p := SortedForward(clock, source.items, out, show);
      }
      if p :| RowsAt(clock, out, source.items, p, show) {
        SortedBackward(clock, source.items, out, p, show);
      }
    }
  }

  /** The append loop, then the sort, then the plain rows. */
  method CollectRows(clock: bool, m: Fields, show: Json -> string) returns (r: Checked<seq<Json>>)
    ensures r == SortedRows(clock, m, show)
    ensures forall out :: r == Ok(out) <==>
              SortedFrom(clock, Arr(out), Get(m, if clock then "required_clock_connections" else "regions"), show)
  {
    hide RowOf, Sort, SortedFrom, Rows, Objects;
    CollectMeaning(clock, m, show);
    var name := if clock then "required_clock_connections" else "regions";
    var items :- RequireSequence(Get(m, name), [Key(name)]);
    var rows: seq<Row<Fields>> := [];
    var k := 0;
    RowsStep(clock, items, show, 0);
    while k < |items|
      invariant 0 <= k <= |items|
      invariant Rows(clock, items[..k], show) == Ok(rows)
    {
      RowsStep(clock, items, show, k);
      var row := RowOf(clock, items[k], k, show);
      if row.Err? {
        RowsFail(clock, items, show, k + 1);
        return Err(row.error);
      }
      rows := rows + [row.value];
      k := k + 1;
    }
    assert items[..k] == items;
    rows := Sort(rows);
    return Ok(Objects(rows));
  }

  /** The rows of one more item. */
  lemma {:induction false} RowsStep(clock: bool, items: seq<Json>, show: Json -> string, k: nat)
    requires k <= |items|
    ensures Rows(clock, items[..0], show) == Ok([])
    ensures k < |items| && Rows(clock, items[..k], show).Ok? ==>
              var row := RowOf(clock, items[k], k, show);
              Rows(clock, items[..k + 1], show) ==
                if row.Err? then Err(row.error) else Ok(Rows(clock, items[..k], show).value + [row.value])
  {
    hide RowOf;
    if k < |items| { assert items[..k + 1][..k] == items[..k]; }
  }

  lemma CollectMeaning(clock: bool, m: Fields, show: Json -> string)
    ensures forall out :: SortedRows(clock, m, show) == Ok(out) <==>
              SortedFrom(clock, Arr(out), Get(m, if clock then "required_clock_connections" else "regions"), show)
  {
    hide SortedRows, SortedFrom;
    forall out ensures SortedRows(clock, m, show) == Ok(out) <==>
                         SortedFrom(clock, Arr(out), Get(m, if clock then "required_clock_connections" else "regions"), show)
    {
      SortedRowsIff(clock, m, show, out);
    }
  }

  lemma {:induction false} RowsFail(clock: bool, items: seq<Json>, show: Json -> string, k: nat)
    requires k <= |items| && Rows(clock, items[..k], show).Err?
    ensures Rows(clock, items, show) == Rows(clock, items[..k], show)
    decreases |items|
  {
    hide RowOf;
    if k < |items| {
      assert items[..|items| - 1][..k] == items[..k];
      RowsFail(clock, items[..|items| - 1], show, k);
    } else {
      assert items[..k] == items;
    }
  }

  // ---------- Parents and selections ----------

  /** The objects the selections are made from. */
  ghost predicate ParentsAre(m: Fields, p: Parents) {
    && Get(m, "board_profile") == Obj(p.board) && Get(m, "source_spec") == Obj(p.spec)
    && Get(m, "platform_designer") == Obj(p.designer)
    && Get(m, "exports") == Obj(p.exports) && Get(m, "internal_interfaces") == Obj(p.internal)
    && Get(m, "runtime_network") == Obj(p.network)
    && BridgesAre(Get(m, "bridges"), p)
  }

  ghost predicate BridgesAre(bridges: Json, p: Parents) {
    && bridges.Obj?
    && Get(bridges.fields, "csr_bridge") == Obj(p.csr)
    && Get(p.csr, "address_translation") == Obj(p.csrTranslation)
    && Get(bridges.fields, "ddr_writer_bridge") == Obj(p.ddr)
  }

  lemma ParentsIff(m: Fields, p: Parents)
    ensures ReadParents(m) == Ok(p) <==> ParentsAre(m, p)
  {
    hide Get;
  }

  ghost predicate ChosenAre(m: Fields, p: Parents, c: Chosen) {
    && Picks(c.lifecycle, m, LIFECYCLE_KEYS) && Picks(c.identity, m, IDENTITY_KEYS)
    && Picks(c.board, p.board, BOARD_KEYS) && Picks(c.spec, p.spec, SPEC_KEYS)
    && Picks(c.designer, p.designer, DESIGNER_KEYS)
    && Picks(c.csr, p.csr, CSR_BRIDGE_KEYS) && Picks(c.csrTranslation, p.csrTranslation, CSR_TRANSLATION_KEYS)
    && Picks(c.ddr, p.ddr, DDR_BRIDGE_KEYS)
    && Get(m, "validation_rules") == Arr(c.rules)
  }

  lemma ChooseIff(m: Fields, p: Parents, c: Chosen)
    ensures Choose(m, p) == Ok(c) <==> ChosenAre(m, p, c)
  {
    hide Select, Get, Picks;
    SelectIff(m, LIFECYCLE_KEYS, [], c.lifecycle);
    SelectIff(m, IDENTITY_KEYS, [], c.identity);
    SelectIff(p.board, BOARD_KEYS, [Key("board_profile")], c.board);
    SelectIff(p.spec, SPEC_KEYS, [Key("source_spec")], c.spec);
    SelectIff(p.designer, DESIGNER_KEYS, [Key("platform_designer")], c.designer);
    SelectIff(p.csr, CSR_BRIDGE_KEYS, [Key("bridges"), Key("csr_bridge")], c.csr);
    SelectIff(p.csrTranslation, CSR_TRANSLATION_KEYS, [Key("bridges"), Key("csr_bridge"), Key("address_translation")],
              c.csrTranslation);
    SelectIff(p.ddr, DDR_BRIDGE_KEYS, [Key("bridges"), Key("ddr_writer_bridge")], c.ddr);
  }

  // ---------- The projected object ----------

  const NAMES := ["canonicalization", "lifecycle", "identity", "board_profile", "source_spec", "platform_designer",
                  "exports", "internal_interfaces", "required_clock_connections", "bridges", "regions",
                  "runtime_network", "validation_rules"]

  ghost predicate DictionaryIs(f: Fields, c: Chosen, p: Parents, clocks: seq<Json>, regions: seq<Json>) {
    && Only(f, NAMES, {})
    && Get(f, "canonicalization") == Str("trecap_address_map_semantic_projection_v1")
    && Get(f, "lifecycle") == Obj(c.lifecycle) && Get(f, "identity") == Obj(c.identity)
    && Get(f, "board_profile") == Obj(c.board) && Get(f, "source_spec") == Obj(c.spec)
    && Get(f, "platform_designer") == Obj(c.designer)
    && Get(f, "exports") == Obj(p.exports) && Get(f, "internal_interfaces") == Obj(p.internal)
    && Get(f, "required_clock_connections") == Arr(clocks)
    && Get(f, "bridges") == Obj(Bridges(c))
    && Get(f, "regions") == Arr(regions)
    && Get(f, "runtime_network") == Obj(p.network)
    && Get(f, "validation_rules") == Arr(c.rules)
  }

  lemma DictionaryFirst(c: Chosen, p: Parents, ks: seq<Json>, rs: seq<Json>)
    ensures var a := Dictionary(c, p, ks, rs);
            && Get(a, "canonicalization") == Str("trecap_address_map_semantic_projection_v1")
            && Get(a, "lifecycle") == Obj(c.lifecycle) && Get(a, "identity") == Obj(c.identity)
            && Get(a, "board_profile") == Obj(c.board) && Get(a, "source_spec") == Obj(c.spec)
  {
    hide Bridges;
  }

  lemma DictionarySecond(c: Chosen, p: Parents, ks: seq<Json>, rs: seq<Json>)
    ensures var a := Dictionary(c, p, ks, rs);
            && Get(a, "platform_designer") == Obj(c.designer) && Get(a, "exports") == Obj(p.exports)
            && Get(a, "internal_interfaces") == Obj(p.internal) && Get(a, "runtime_network") == Obj(p.network)
  {
    hide Bridges;
  }

  lemma DictionaryThird(c: Chosen, p: Parents, ks: seq<Json>, rs: seq<Json>)
    ensures var a := Dictionary(c, p, ks, rs);
            && Get(a, "required_clock_connections") == Arr(ks) && Get(a, "regions") == Arr(rs)
            && Get(a, "validation_rules") == Arr(c.rules)
            && Get(a, "bridges") == Obj(Bridges(c))
  {
    hide Bridges;
  }

  lemma DictionaryOnly(c: Chosen, p: Parents, ks: seq<Json>, rs: seq<Json>)
    ensures Only(Dictionary(c, p, ks, rs), NAMES, {})
  {
    hide Bridges;
  }

  lemma NameCases(k: string)
    requires k in NAMES
    ensures || k == "canonicalization" || k == "lifecycle" || k == "identity" || k == "board_profile"
            || k == "source_spec" || k == "platform_designer" || k == "exports" || k == "internal_interfaces"
            || k == "required_clock_connections" || k == "bridges" || k == "regions" || k == "runtime_network"
            || k == "validation_rules"
  {
  }

  /** The named entries leave no room for a second object. */
  lemma DictionaryUnique(f: Fields, g: Fields, c: Chosen, p: Parents, ks: seq<Json>, rs: seq<Json>)
    requires DictionaryIs(f, c, p, ks, rs) && DictionaryIs(g, c, p, ks, rs)
    ensures f == g
  {
    hide Bridges;
    forall k | k in f || k in g ensures k in f && k in g && f[k] == g[k] {
      NameCases(k);
      assert Get(f, k) == Get(g, k) != Null;
    }
  }

  lemma DictionaryIff(f: Fields, c: Chosen, p: Parents, ks: seq<Json>, rs: seq<Json>)
    ensures f == Dictionary(c, p, ks, rs) <==> DictionaryIs(f, c, p, ks, rs)
  {
    hide Bridges, Dictionary, Get, Only;
    DictionaryFirst(c, p, ks, rs);
    DictionarySecond(c, p, ks, rs);
    DictionaryThird(c, p, ks, rs);
    DictionaryOnly(c, p, ks, rs);
    if DictionaryIs(f, c, p, ks, rs) { DictionaryUnique(f, Dictionary(c, p, ks, rs), c, p, ks, rs); }
  }

  /** The projected bridges from the raw ones. */
  ghost predicate BridgesFrom(v: Json, source: Json) {
    && v.Obj? && source.Obj? && Only(v.fields, ["csr_bridge", "ddr_writer_bridge"], {})
    && CsrBridgeFrom(Get(v.fields, "csr_bridge"), Get(source.fields, "csr_bridge"))
    && PicksFrom(Get(v.fields, "ddr_writer_bridge"), Get(source.fields, "ddr_writer_bridge"), DDR_BRIDGE_KEYS)
  }

  ghost predicate CsrBridgeFrom(v: Json, source: Json) {
    && v.Obj? && source.Obj?
    && Only(v.fields, CSR_BRIDGE_KEYS, {"address_translation"}) && AgreeOn(v.fields, source.fields, CSR_BRIDGE_KEYS)
    && PicksFrom(Get(v.fields, "address_translation"), Get(source.fields, "address_translation"), CSR_TRANSLATION_KEYS)
  }

  lemma CsrBridgeMerge(base: Fields, own: Fields, source: Fields, translation: Fields)
    requires Select(source, CSR_BRIDGE_KEYS, []) == Ok(base)
    ensures own == base["address_translation" := Obj(translation)] <==>
              && Only(own, CSR_BRIDGE_KEYS, {"address_translation"}) && AgreeOn(own, source, CSR_BRIDGE_KEYS)
              && Get(own, "address_translation") == Obj(translation)
  {
    hide Select, Only, AgreeOn;
    NoTranslationKey();
    var extra := map["address_translation" := Obj(translation)];
    OneEntry(Ok(base), "address_translation", Obj(translation));
    MergeIff(own, source, CSR_BRIDGE_KEYS, [], extra);
    assert (forall k :: k in extra ==> k in own && own[k] == extra[k]) <==>
             Get(own, "address_translation") == Obj(translation);
  }

  lemma TwoBridges(f: Fields, c: Chosen)
    ensures f == Bridges(c) <==>
              && Only(f, ["csr_bridge", "ddr_writer_bridge"], {})
              && Get(f, "csr_bridge") == Obj(c.csr["address_translation" := Obj(c.csrTranslation)])
              && Get(f, "ddr_writer_bridge") == Obj(c.ddr)
  {
  }

  lemma BridgesForward(source: Json, p: Parents, c: Chosen)
    requires BridgesAre(source, p)
    requires Picks(c.csr, p.csr, CSR_BRIDGE_KEYS) && Picks(c.csrTranslation, p.csrTranslation, CSR_TRANSLATION_KEYS)
    requires Picks(c.ddr, p.ddr, DDR_BRIDGE_KEYS)
    ensures BridgesFrom(Obj(Bridges(c)), source)
  {
    hide Picks, Only, AgreeOn, Bridges;
    TwoBridges(Bridges(c), c);
    SelectIff(p.csr, CSR_BRIDGE_KEYS, [], c.csr);
    CsrBridgeMerge(c.csr, c.csr["address_translation" := Obj(c.csrTranslation)], p.csr, c.csrTranslation);
  }

  /** The entries of the CSR bridge without its translation. */
  lemma CsrBridgeBase(own: Fields, source: Fields, translation: Fields) returns (base: Fields)
    requires Only(own, CSR_BRIDGE_KEYS, {"address_translation"}) && AgreeOn(own, source, CSR_BRIDGE_KEYS)
    requires Get(own, "address_translation") == Obj(translation)
    ensures Picks(base, source, CSR_BRIDGE_KEYS) && own == base["address_translation" := Obj(translation)]
  {
    hide Select;
    base := own - {"address_translation"};
    NoTranslationKey();
  }

  // ---------- The whole projection ----------

  /** v is the projection of m: its entries and nothing else, each read off the raw document. */
  ghost predicate IsProjection(v: Json, m: Fields, show: Json -> string) {
    && v.Obj? && Only(v.fields, NAMES, {})
    && Get(v.fields, "canonicalization") == Str("trecap_address_map_semantic_projection_v1")
    && PlainPart(v.fields, m) && SelectedPart(v.fields, m)
    && BridgesFrom(Get(v.fields, "bridges"), Get(m, "bridges"))
    && SortedFrom(true, Get(v.fields, "required_clock_connections"), Get(m, "required_clock_connections"), show)
    && SortedFrom(false, Get(v.fields, "regions"), Get(m, "regions"), show)
  }

  /** Entries copied whole. */
  ghost predicate PlainPart(f: Fields, m: Fields) {
    && Get(m, "exports").Obj? && Get(f, "exports") == Get(m, "exports")
    && Get(m, "internal_interfaces").Obj? && Get(f, "internal_interfaces") == Get(m, "internal_interfaces")
    && Get(m, "runtime_network").Obj? && Get(f, "runtime_network") == Get(m, "runtime_network")
    && Get(m, "validation_rules").Arr? && Get(f, "validation_rules") == Get(m, "validation_rules")
  }

  /** Entries selected from one object. */
  ghost predicate SelectedPart(f: Fields, m: Fields) {
    && PicksFrom(Get(f, "lifecycle"), Obj(m), LIFECYCLE_KEYS) && PicksFrom(Get(f, "identity"), Obj(m), IDENTITY_KEYS)
    && PicksFrom(Get(f, "board_profile"), Get(m, "board_profile"), BOARD_KEYS)
    && PicksFrom(Get(f, "source_spec"), Get(m, "source_spec"), SPEC_KEYS)
    && PicksFrom(Get(f, "platform_designer"), Get(m, "platform_designer"), DESIGNER_KEYS)
  }

  lemma ProjectionForward(m: Fields, show: Json -> string, v: Json)
    requires Projection(m, show) == Ok(v)
    ensures IsProjection(v, m, show)
  {
    hide ReadParents, Choose, Dictionary, Bridges, SortedRows, SortedFrom, BridgesFrom, Only, Picks, Get, BridgesAre,
         PlainPart, SelectedPart;
    var p, ks, rs := ReadParents(m).value, SortedRows(true, m, show).value, SortedRows(false, m, show).value;
    var c := Choose(m, p).value;
    ParentsIff(m, p);
    ChooseIff(m, p, c);
    SortedRowsIff(true, m, show, ks);
    SortedRowsIff(false, m, show, rs);
    DictionaryIff(v.fields, c, p, ks, rs);
    PartsForward(v.fields, m, p, c, ks, rs);
    BridgesForward(Get(m, "bridges"), p, c);
  }

  lemma PartsForward(f: Fields, m: Fields, p: Parents, c: Chosen, ks: seq<Json>, rs: seq<Json>)
    requires ParentsAre(m, p) && ChosenAre(m, p, c) && DictionaryIs(f, c, p, ks, rs)
    ensures PlainPart(f, m) && SelectedPart(f, m)
  {
    hide Only, Picks, Get, BridgesAre, Bridges;
  }

  lemma ProjectionBackward(m: Fields, show: Json -> string, v: Json)
    requires IsProjection(v, m, show)
    ensures Projection(m, show) == Ok(v)
  {
    hide ReadParents, Choose, Dictionary, Bridges, SortedRows, SortedFrom, Only, AgreeOn, Get;
    var f, b, d := v.fields, Get(m, "bridges").fields, Get(v.fields, "bridges").fields;
    var csr := Get(b, "csr_bridge").fields;
    var own := Get(d, "csr_bridge").fields;
    var p := Parents(Get(m, "board_profile").fields, Get(m, "source_spec").fields, Get(m, "platform_designer").fields,
                     Get(m, "exports").fields, Get(m, "internal_interfaces").fields,
                     csr, Get(csr, "address_translation").fields, Get(b, "ddr_writer_bridge").fields,
                     Get(m, "runtime_network").fields);
    var translation := Get(own, "address_translation").fields;
    var base := CsrBridgeBase(own, csr, translation);
    var c := Chosen(Get(f, "lifecycle").fields, Get(f, "identity").fields, Get(f, "board_profile").fields,
                    Get(f, "source_spec").fields, Get(f, "platform_designer").fields,
                    base, translation, Get(d, "ddr_writer_bridge").fields, Get(f, "validation_rules").items);
    SortedIsList(true, Get(f, "required_clock_connections"), Get(m, "required_clock_connections"), show);
    SortedIsList(false, Get(f, "regions"), Get(m, "regions"), show);
    var ks, rs := Get(f, "required_clock_connections").items, Get(f, "regions").items;
    ParentsIff(m, p);
    ChooseIff(m, p, c);
    SortedRowsIff(true, m, show, ks);
    SortedRowsIff(false, m, show, rs);
    TwoBridges(d, c);
    DictionaryIff(f, c, p, ks, rs);
  }

  /** The projection succeeds with v exactly when v has the content above. */
  lemma ProjectionIff(m: Fields, show: Json -> string, v: Json)
    ensures Projection(m, show) == Ok(v) <==> IsProjection(v, m, show)
  {
    hide Projection, IsProjection;
    if Projection(m, show) == Ok(v) { ProjectionForward(m, show, v); }
    if IsProjection(v, m, show) { ProjectionBackward(m, show, v); }
  }

  method SemanticProjection(m: Fields, show: Json -> string) returns (r: Checked<Json>)
    ensures r == Projection(m, show)
    ensures forall v :: r == Ok(v) <==> IsProjection(v, m, show)
  {
    hide SortedRows, ReadParents, Assemble, IsProjection;
    forall v ensures Projection(m, show) == Ok(v) <==> IsProjection(v, m, show) { ProjectionIff(m, show, v); }
    var p :- ReadParents(m);
    var clocks :- CollectRows(true, m, show);
    var regions :- CollectRows(false, m, show);
    return Assemble(m, p, clocks, regions);
  }

  // ---------- What one projection pins down ----------

  /** Two objects agree on the listed keys. */
  ghost predicate AgreeAt(v: Json, v': Json, keys: seq<string>) {
    v.Obj? && v'.Obj? && AgreeOn(v.fields, v'.fields, keys)
  }

  lemma PickedAgree(own: Json, v: Json, v': Json, keys: seq<string>)
    requires PicksFrom(own, v, keys) && PicksFrom(own, v', keys)
    ensures AgreeAt(v, v', keys)
  {
  }

  /** Two raw items agree on everything that is projected from them. */
  ghost predicate SameRow(clock: bool, raw: Json, raw': Json) {
    && raw.Obj? && raw'.Obj?
    && var f, g := raw.fields, raw'.fields;
       if clock then AgreeOn(f, g, ["source", "sink"])
       else
         && Get(f, "kind") == Get(g, "kind")
         && (Get(f, "kind") == Str("csr") ==>
               AgreeOn(f, g, CSR_KEYS) && AgreeAt(Get(f, "access"), Get(g, "access"), ACCESS_KEYS))
         && (Get(f, "kind") != Str("csr") ==>
               && Get(f, "kind") == Str("ddr_ring") && AgreeOn(f, g, RING_KEYS)
               && AgreeAt(Get(f, "record_contract"), Get(g, "record_contract"), RECORD_KEYS)
               && AgreeAt(Get(f, "pointer_contract"), Get(g, "pointer_contract"), CURSOR_KEYS)
               && AgreeAt(Get(f, "address_translation"), Get(g, "address_translation"), TRANSLATION_KEYS))
  }

  lemma RegionKind(own: Fields, region: Fields)
    requires CsrContent(own, region) || RingContent(own, region)
    ensures Get(own, "kind") == Get(region, "kind")
  {
    hide Only, PicksFrom;
    assert CSR_KEYS[1] == "kind" && RING_KEYS[1] == "kind";
  }

  lemma AgreeThrough(own: Fields, m: Fields, m': Fields, keys: seq<string>)
    requires AgreeOn(own, m, keys) && AgreeOn(own, m', keys)
    ensures AgreeOn(m, m', keys)
  {
  }

  lemma SameContentSameRow(clock: bool, own: Fields, raw: Json, raw': Json)
    requires RowContent(clock, own, raw) && RowContent(clock, own, raw')
    ensures SameRow(clock, raw, raw')
  {
    hide Only, PicksFrom, AgreeOn, AgreeAt;
    var f, g := raw.fields, raw'.fields;
    if clock {
      AgreeThrough(own, f, g, ["source", "sink"]);
    } else {
      RegionKind(own, f);
      RegionKind(own, g);
      if Get(f, "kind") == Str("csr") {
        AgreeThrough(own, f, g, CSR_KEYS);
        PickedAgree(Get(own, "access"), Get(f, "access"), Get(g, "access"), ACCESS_KEYS);
      } else {
        AgreeThrough(own, f, g, RING_KEYS);
        PickedAgree(Get(own, "record_contract"), Get(f, "record_contract"), Get(g, "record_contract"), RECORD_KEYS);
        PickedAgree(Get(own, "pointer_contract"), Get(f, "pointer_contract"), Get(g, "pointer_contract"), CURSOR_KEYS);
        PickedAgree(Get(own, "address_translation"), Get(f, "address_translation"), Get(g, "address_translation"),
                    TRANSLATION_KEYS);
      }
    }
  }

  /** Two row lists agree up to order: position p[i] of one with position q[i] of the other. */
  ghost predicate SameUpToOrder(clock: bool, v: Json, v': Json) {
    && v.Arr? && v'.Arr? && |v.items| == |v'.items|
    && exists p, q :: Matched(clock, v.items, v'.items, p, q)
  }

  ghost predicate Matched(clock: bool, a: seq<Json>, b: seq<Json>, p: seq<nat>, q: seq<nat>) {
    && IsPermutation(p, |a|) && IsPermutation(q, |b|) && |a| == |b|
    && forall i :: 0 <= i < |a| ==> SameRow(clock, a[p[i]], b[q[i]])
  }

  lemma SortedMatch(clock: bool, out: Json, v: Json, v': Json, show: Json -> string)
    requires SortedFrom(clock, out, v, show) && SortedFrom(clock, out, v', show)
    ensures SameUpToOrder(clock, v, v')
  {
    hide SameRow, RowContent, InOrder;
    var p :| RowsAt(clock, out.items, v.items, p, show);
    var q :| RowsAt(clock, out.items, v'.items, q, show);
    forall i | 0 <= i < |v.items| ensures SameRow(clock, v.items[p[i]], v'.items[q[i]]) {
      SameContentSameRow(clock, out.items[i].fields, v.items[p[i]], v'.items[q[i]]);
    }
    assert Matched(clock, v.items, v'.items, p, q);
  }

  /** The two documents agree on every field the projection covers. */
  ghost predicate SameCoverage(m: Fields, m': Fields) {
    && AgreeOn(m, m', LIFECYCLE_KEYS) && AgreeOn(m, m', IDENTITY_KEYS)
    && AgreeAt(Get(m, "board_profile"), Get(m', "board_profile"), BOARD_KEYS)
    && AgreeAt(Get(m, "source_spec"), Get(m', "source_spec"), SPEC_KEYS)
    && AgreeAt(Get(m, "platform_designer"), Get(m', "platform_designer"), DESIGNER_KEYS)
    && SameBridges(Get(m, "bridges"), Get(m', "bridges"))
    && Get(m, "exports") == Get(m', "exports") && Get(m, "internal_interfaces") == Get(m', "internal_interfaces")
    && Get(m, "runtime_network") == Get(m', "runtime_network")
    && Get(m, "validation_rules") == Get(m', "validation_rules")
    && SameUpToOrder(true, Get(m, "required_clock_connections"), Get(m', "required_clock_connections"))
    && SameUpToOrder(false, Get(m, "regions"), Get(m', "regions"))
  }

  ghost predicate SameBridges(v: Json, v': Json) {
    && v.Obj? && v'.Obj?
    && AgreeAt(Get(v.fields, "ddr_writer_bridge"), Get(v'.fields, "ddr_writer_bridge"), DDR_BRIDGE_KEYS)
    && SameCsrBridge(Get(v.fields, "csr_bridge"), Get(v'.fields, "csr_bridge"))
  }

  ghost predicate SameCsrBridge(csr: Json, csr': Json) {
    && AgreeAt(csr, csr', CSR_BRIDGE_KEYS)
    && AgreeAt(Get(csr.fields, "address_translation"), Get(csr'.fields, "address_translation"), CSR_TRANSLATION_KEYS)
  }

  lemma BridgesAgree(own: Json, v: Json, v': Json)
    requires BridgesFrom(own, v) && BridgesFrom(own, v')
    ensures SameBridges(v, v')
  {
    hide Only, PicksFrom, AgreeOn, Get;
    var o, a, b := Get(own.fields, "csr_bridge"), Get(v.fields, "csr_bridge"), Get(v'.fields, "csr_bridge");
    AgreeThrough(o.fields, a.fields, b.fields, CSR_BRIDGE_KEYS);
    PickedAgree(Get(o.fields, "address_translation"), Get(a.fields, "address_translation"),
                Get(b.fields, "address_translation"), CSR_TRANSLATION_KEYS);
    PickedAgree(Get(own.fields, "ddr_writer_bridge"), Get(v.fields, "ddr_writer_bridge"),
                Get(v'.fields, "ddr_writer_bridge"), DDR_BRIDGE_KEYS);
  }

  /** No covered value can drift without changing the projection: two documents with one projection
      agree on every covered field, their row lists up to order. */
  lemma ProjectionPinsFields(m: Fields, m': Fields, show: Json -> string)
    requires Projection(m, show).Ok? && Projection(m, show) == Projection(m', show)
    ensures SameCoverage(m, m')
  {
    hide Projection, Only, PicksFrom, AgreeOn, Get, BridgesFrom, SortedFrom, SameUpToOrder, SameBridges;
    var v := Projection(m, show).value;
    ProjectionIff(m, show, v);
    ProjectionIff(m', show, v);
    var f := v.fields;
    BridgesAgree(Get(f, "bridges"), Get(m, "bridges"), Get(m', "bridges"));
    SortedMatch(true, Get(f, "required_clock_connections"), Get(m, "required_clock_connections"),
                Get(m', "required_clock_connections"), show);
    SortedMatch(false, Get(f, "regions"), Get(m, "regions"), Get(m', "regions"), show);
    PickedAgree(Get(f, "lifecycle"), Obj(m), Obj(m'), LIFECYCLE_KEYS);
    PickedAgree(Get(f, "identity"), Obj(m), Obj(m'), IDENTITY_KEYS);
    PickedAgree(Get(f, "board_profile"), Get(m, "board_profile"), Get(m', "board_profile"), BOARD_KEYS);
    PickedAgree(Get(f, "source_spec"), Get(m, "source_spec"), Get(m', "source_spec"), SPEC_KEYS);
    PickedAgree(Get(f, "platform_designer"), Get(m, "platform_designer"), Get(m', "platform_designer"), DESIGNER_KEYS);
  }
}
