/** The semantic projection of the address map and the freeze record hashed from it. */
module AddressMap {
  import opened Text
  import opened Json
  import opened StableSort

  type Fields = map<string, Json>

  /** Where in the document an error was found. */
  datatype Step = Key(name: string) | At(index: nat)
  type Path = seq<Step>

  datatype MapError =
    | NotAnObject(path: Path)
    | NotAnArray(path: Path)
    | Missing(path: Path)
    | UnsupportedKind(path: Path)
    | CannotHash(file: string)

  type Checked<T> = Result<T, MapError>

  /** Mapping.get(key). */
  function Get(m: Fields, key: string): Json { if key in m then m[key] else Null }

  function RequireMapping(v: Json, path: Path): Checked<Fields> {
    if v.Obj? then Ok(v.fields) else Err(NotAnObject(path))
  }

  function RequireSequence(v: Json, path: Path): Checked<seq<Json>> {
    if v.Arr? then Ok(v.items) else Err(NotAnArray(path))
  }

  // ---------- _select ----------

  function Select(m: Fields, keys: seq<string>, path: Path): Checked<Fields> {
    if keys == [] then Ok(map[])
    else
      var key := keys[|keys| - 1];
      var before :- Select(m, keys[..|keys| - 1], path);
      if key in m then Ok(before[key := m[key]]) else Err(Missing(path + [Key(key)]))
  }

  method SelectKeys(m: Fields, keys: seq<string>, path: Path) returns (r: Checked<Fields>)
    ensures r == Select(m, keys, path)
  {
    var result: Fields := map[];
    var k := 0;
    while k < |keys|
      invariant 0 <= k <= |keys|
      invariant Select(m, keys[..k], path) == Ok(result)
    {
      assert keys[..k + 1][..k] == keys[..k];
      if keys[k] !in m {
        SelectFails(m, keys, path, k + 1);
        return Err(Missing(path + [Key(keys[k])]));
      }
      result := result[keys[k] := m[keys[k]]];
      k := k + 1;
    }
    assert keys[..k] == keys;
    return Ok(result);
  }

  lemma {:induction false} SelectFails(m: Fields, keys: seq<string>, path: Path, k: nat)
    requires k <= |keys| && Select(m, keys[..k], path).Err?
    ensures Select(m, keys, path) == Select(m, keys[..k], path)
    decreases |keys|
  {
    if k < |keys| {
      assert keys[..|keys| - 1][..k] == keys[..k];
      SelectFails(m, keys[..|keys| - 1], path, k);
    } else {
      assert keys[..k] == keys;
    }
  }

  /** Exactly the required keys, with their values; any missing one is an error. */
  lemma {:induction false} SelectMeaning(m: Fields, keys: seq<string>, path: Path)
    ensures Select(m, keys, path).Ok? <==> forall k :: 0 <= k < |keys| ==> keys[k] in m
    ensures Select(m, keys, path).Ok? ==>
              var r := Select(m, keys, path).value;
              (forall n :: n in r <==> n in keys) && (forall n :: n in r ==> n in m && r[n] == m[n])
  {
    if keys != [] {
      var before := keys[..|keys| - 1];
      SelectMeaning(m, before, path);
      assert forall n :: n in keys <==> n in before || n == keys[|keys| - 1];
      assert forall k :: 0 <= k < |before| ==> before[k] == keys[k];
    }
  }

  /** Success and value do not depend on the path. */
  lemma {:induction false} SelectPathFree(m: Fields, keys: seq<string>, p: Path, q: Path)
    ensures Select(m, keys, p).Ok? == Select(m, keys, q).Ok?
    ensures Select(m, keys, p).Ok? ==> Select(m, keys, p) == Select(m, keys, q)
  {
    if keys != [] { SelectPathFree(m, keys[..|keys| - 1], p, q); }
  }

  /** A key that is not selected does not matter. */
  lemma {:induction false} SelectFrame(m: Fields, name: string, v: Json, keys: seq<string>, path: Path)
    requires name !in keys
    ensures Select(m[name := v], keys, path) == Select(m, keys, path)
  {
    if keys != [] { SelectFrame(m, name, v, keys[..|keys| - 1], path); }
  }

  // ---------- _project_region ----------

  const CSR_KEYS := ["name", "kind", "owner_rtl", "hps_physical_base", "span_bytes", "end_exclusive",
                     "offset_source", "generated_hps_header", "required_id_value", "required_version_value"]
  const ACCESS_KEYS := ["word_size_bytes", "alignment_bytes", "byte_order", "multiword_transfer_policy"]
  const RING_KEYS := ["name", "kind", "owner_rtl", "record_builder_rtl", "pointer_ctrl_rtl", "hps_reader_software",
                      "hps_physical_base", "fpga_visible_base", "size_bytes", "end_exclusive", "guard_bytes",
                      "alignment_bytes", "natural_alignment_bytes", "minimum_size_bytes",
                      "power_of_two_size_required", "linux_allocation_policy", "hps_cache_policy"]
  const RECORD_KEYS := ["header_bytes", "normal_record_alignment_bytes", "normal_length_rule", "wrap_packet_type",
                        "wrap_payload_bytes", "wrap_effective_length_rule", "udp_forwards_padding"]
  const CURSOR_KEYS := ["pointer_width_bits", "producer_pointer", "consumer_pointer", "offset_rule",
                         "producer_commit_rule", "consumer_commit_rule"]
  const TRANSLATION_KEYS := ["policy", "fpga_to_hps_offset_bytes", "required_boot_remap", "evidence_status"]

  function ProjectCsr(region: Fields, path: Path): Checked<Fields> {
    var access :- RequireMapping(Get(region, "access"), path + [Key("access")]);
    var own :- Select(region, CSR_KEYS, path);
    var sub :- Select(access, ACCESS_KEYS, path + [Key("access")]);
    Ok(own["access" := Obj(sub)])
  }

  function ProjectRing(region: Fields, path: Path): Checked<Fields> {
    var translation :- RequireMapping(Get(region, "address_translation"), path + [Key("address_translation")]);
    var record :- RequireMapping(Get(region, "record_contract"), path + [Key("record_contract")]);
    var pointer :- RequireMapping(Get(region, "pointer_contract"), path + [Key("pointer_contract")]);
    var own :- Select(region, RING_KEYS, path);
    var subRecord :- Select(record, RECORD_KEYS, path + [Key("record_contract")]);
    var subPointer :- Select(pointer, CURSOR_KEYS, path + [Key("pointer_contract")]);
    var subTranslation :- Select(translation, TRANSLATION_KEYS, path + [Key("address_translation")]);
    Ok(own["record_contract" := Obj(subRecord)]["pointer_contract" := Obj(subPointer)]
          ["address_translation" := Obj(subTranslation)])
  }

  function ProjectRegion(region: Fields, index: nat): Checked<Fields> {
    var path := [Key("regions"), At(index)];
    var kind := Get(region, "kind");
    if kind == Str("csr") then ProjectCsr(region, path)
    else if kind == Str("ddr_ring") then ProjectRing(region, path)
    else Err(UnsupportedKind(path + [Key("kind")]))
  }

  // ---------- Sorted rows ----------

  /** str(value): the text of a string; for other values the given rendering. */
  function Shown(v: Json, show: Json -> string): string { if v.Str? then v.text else show(v) }

  function ClockRow(raw: Json, index: nat, show: Json -> string): Checked<Row<Fields>> {
    var path := [Key("required_clock_connections"), At(index)];
    var row :- RequireMapping(raw, path);
    var own :- Select(row, ["source", "sink"], path);
    Ok(Row([Shown(Get(own, "source"), show), Shown(Get(own, "sink"), show)], own))
  }

  function RegionRow(raw: Json, index: nat, show: Json -> string): Checked<Row<Fields>> {
    var region :- RequireMapping(raw, [Key("regions"), At(index)]);
    var own :- ProjectRegion(region, index);
    Ok(Row([Shown(Get(own, "name"), show)], own))
  }

  /** Row number `index` of either list. */
  function RowOf(clock: bool, raw: Json, index: nat, show: Json -> string): Checked<Row<Fields>> {
    if clock then ClockRow(raw, index, show) else RegionRow(raw, index, show)
  }

  /** The rows in document order, or the first error. */
  function Rows(clock: bool, items: seq<Json>, show: Json -> string): Checked<seq<Row<Fields>>> {
    if items == [] then Ok([])
    else
      var n := |items| - 1;
      var before :- Rows(clock, items[..n], show);
      var row :- RowOf(clock, items[n], n, show);
      Ok(before + [row])
  }

  function Objects(rows: seq<Row<Fields>>): (r: seq<Json>)
    ensures |r| == |rows| && forall k :: 0 <= k < |rows| ==> r[k] == Obj(rows[k].value)
  {
    if rows == [] then [] else Objects(rows[..|rows| - 1]) + [Obj(rows[|rows| - 1].value)]
  }

  /** A row list read, projected and sorted. */
  function SortedRows(clock: bool, m: Fields, show: Json -> string): Checked<seq<Json>> {
    var name := if clock then "required_clock_connections" else "regions";
    var items :- RequireSequence(Get(m, name), [Key(name)]);
    SortedItems(clock, items, show)
  }

  function SortedItems(clock: bool, items: seq<Json>, show: Json -> string): Checked<seq<Json>> {
    var rows :- Rows(clock, items, show);
    Ok(Objects(Sort(rows)))
  }

  // ---------- semantic_projection ----------

  datatype Parents = Parents(board: Fields, spec: Fields, designer: Fields, exports: Fields, internal: Fields,
                             csr: Fields, csrTranslation: Fields, ddr: Fields, network: Fields)

  function ReadParents(m: Fields): Checked<Parents> {
    var board :- RequireMapping(Get(m, "board_profile"), [Key("board_profile")]);
    var spec :- RequireMapping(Get(m, "source_spec"), [Key("source_spec")]);
    var designer :- RequireMapping(Get(m, "platform_designer"), [Key("platform_designer")]);
    var exports :- RequireMapping(Get(m, "exports"), [Key("exports")]);
    var internal :- RequireMapping(Get(m, "internal_interfaces"), [Key("internal_interfaces")]);
    var bridges :- RequireMapping(Get(m, "bridges"), [Key("bridges")]);
    var csr :- RequireMapping(Get(bridges, "csr_bridge"), [Key("bridges"), Key("csr_bridge")]);
    var csrTranslation :- RequireMapping(Get(csr, "address_translation"),
                                         [Key("bridges"), Key("csr_bridge"), Key("address_translation")]);
    var ddr :- RequireMapping(Get(bridges, "ddr_writer_bridge"), [Key("bridges"), Key("ddr_writer_bridge")]);
    var network :- RequireMapping(Get(m, "runtime_network"), [Key("runtime_network")]);
    Ok(Parents(board, spec, designer, exports, internal, csr, csrTranslation, ddr, network))
  }

  const CANONICALIZATION := "trecap_address_map_semantic_projection_v1"

  const LIFECYCLE_KEYS := ["schema", "contract_stage", "status"]
  const IDENTITY_KEYS := ["project", "board"]
  const BOARD_KEYS := ["preset", "source_revision", "physical_board_revision_status"]
  const SPEC_KEYS := ["algorithm_revision", "transport_revision", "repository_revision"]
  const DESIGNER_KEYS := ["system_name", "contract_status", "address_contract_status", "quartus_release",
                          "qsys_api_version", "hps_component_version", "hps_preset_tsv",
                          "hps_preset_effective_sha256", "hps_preset_application_sha256", "hps_parameter_count",
                          "hps_applied_parameter_count", "hps_readback_only_parameter_count", "f2sdram_type",
                          "f2sdram_width_bits", "qsys_file", "generated_dir", "sopcinfo_file",
                          "sopcinfo_source_package_policy", "qip_file"]
  const CSR_BRIDGE_KEYS := ["export", "hps_lw_base_phys", "hps_lw_span_bytes", "csr_offset_in_lw",
                            "csr_base_hps_phys", "csr_span_bytes", "data_width_bits",
                            "master_byte_address_width_bits", "csr_leaf_byte_address_width_bits", "byte_order",
                            "access_alignment_bytes", "full_decode_required", "unused_aperture_policy"]
  const CSR_TRANSLATION_KEYS := ["policy", "formula", "offset_bytes"]
  const DDR_BRIDGE_KEYS := ["export", "writer_rtl", "avmm_master_rtl", "data_width_bits", "byteenable_width_bits",
                            "burstcount_width_bits", "current_burst_policy", "waitrequest_policy",
                            "write_response_policy"]

  datatype Chosen = Chosen(lifecycle: Fields, identity: Fields, board: Fields, spec: Fields, designer: Fields,
                           csr: Fields, csrTranslation: Fields, ddr: Fields, rules: seq<Json>)

  /** The selections of the returned dictionary, in the order they are written. */
  function Choose(m: Fields, p: Parents): Checked<Chosen> {
    var lifecycle :- Select(m, LIFECYCLE_KEYS, []);
    var identity :- Select(m, IDENTITY_KEYS, []);
    var board :- Select(p.board, BOARD_KEYS, [Key("board_profile")]);
    var spec :- Select(p.spec, SPEC_KEYS, [Key("source_spec")]);
    var designer :- Select(p.designer, DESIGNER_KEYS, [Key("platform_designer")]);
    var csr :- Select(p.csr, CSR_BRIDGE_KEYS, [Key("bridges"), Key("csr_bridge")]);
    var csrTranslation :- Select(p.csrTranslation, CSR_TRANSLATION_KEYS,
                                 [Key("bridges"), Key("csr_bridge"), Key("address_translation")]);
    var ddr :- Select(p.ddr, DDR_BRIDGE_KEYS, [Key("bridges"), Key("ddr_writer_bridge")]);
    var rules :- RequireSequence(Get(m, "validation_rules"), [Key("validation_rules")]);
    Ok(Chosen(lifecycle, identity, board, spec, designer, csr, csrTranslation, ddr, rules))
  }

  function Bridges(c: Chosen): Fields {
    map["csr_bridge" := Obj(c.csr["address_translation" := Obj(c.csrTranslation)]), "ddr_writer_bridge" := Obj(c.ddr)]
  }

  function Dictionary(c: Chosen, p: Parents, clocks: seq<Json>, regions: seq<Json>): Fields {
    map["canonicalization" := Str(CANONICALIZATION),
        "lifecycle" := Obj(c.lifecycle),
        "identity" := Obj(c.identity),
        "board_profile" := Obj(c.board),
        "source_spec" := Obj(c.spec),
        "platform_designer" := Obj(c.designer),
        "exports" := Obj(p.exports),
        "internal_interfaces" := Obj(p.internal),
        "required_clock_connections" := Arr(clocks),
        "bridges" := Obj(Bridges(c)),
        "regions" := Arr(regions),
        "runtime_network" := Obj(p.network),
        "validation_rules" := Arr(c.rules)]
  }

  /** The returned value for the rows collected before. */
  function Assemble(m: Fields, p: Parents, clocks: seq<Json>, regions: seq<Json>): Checked<Json> {
    var c :- Choose(m, p);
    Ok(Obj(Dictionary(c, p, clocks, regions)))
  }

  function Projection(m: Fields, show: Json -> string): Checked<Json> {
    var p :- ReadParents(m);
    var clocks :- SortedRows(true, m, show);
    var regions :- SortedRows(false, m, show);
    Assemble(m, p, clocks, regions)
  }

  // ---------- What the projection ignores ----------

  /** Top-level keys outside the two row lists that the projection reads. */
  predicate IsParentKey(k: string) {
    || k == "board_profile" || k == "source_spec" || k == "platform_designer" || k == "exports"
    || k == "internal_interfaces" || k == "bridges" || k == "runtime_network"
  }

  predicate IsPlainKey(k: string) { k in LIFECYCLE_KEYS || k in IDENTITY_KEYS || k == "validation_rules" }

  lemma ParentsFrame(m: Fields, name: string, v: Json)
    requires !IsParentKey(name)
    ensures ReadParents(m[name := v]) == ReadParents(m)
  {
    hide RequireMapping;
  }

  lemma AssembleFrame(m: Fields, name: string, v: Json, p: Parents, clocks: seq<Json>, regions: seq<Json>)
    requires !IsPlainKey(name)
    ensures Assemble(m[name := v], p, clocks, regions) == Assemble(m, p, clocks, regions)
  {
    hide Select, Dictionary;
    SelectFrame(m, name, v, LIFECYCLE_KEYS, []);
    SelectFrame(m, name, v, IDENTITY_KEYS, []);
  }

  /** The projection is blind to the freeze block, so the digest is not self-referential. */
  lemma FreezeBlockIgnored(m: Fields, block: Json, show: Json -> string)
    ensures Projection(m["address_map_freeze" := block], show) == Projection(m, show)
  {
    hide ReadParents, Assemble, Rows, Sort, Objects;
    var m' := m["address_map_freeze" := block];
    NotReadKey();
    ParentsFrame(m, "address_map_freeze", block);
    assert SortedRows(true, m', show) == SortedRows(true, m, show);
    assert SortedRows(false, m', show) == SortedRows(false, m, show);
    var p, c, r := ReadParents(m), SortedRows(true, m, show), SortedRows(false, m, show);
    if p.Ok? && c.Ok? && r.Ok? {
      AssembleFrame(m, "address_map_freeze", block, p.value, c.value, r.value);
    }
  }

  // ---------- Order of rows ----------

  lemma RowIndexFree(clock: bool, raw: Json, i: nat, j: nat, show: Json -> string)
    ensures RowOf(clock, raw, i, show).Ok? == RowOf(clock, raw, j, show).Ok?
    ensures RowOf(clock, raw, i, show).Ok? ==> RowOf(clock, raw, i, show) == RowOf(clock, raw, j, show)
  {
    hide Select;
    if raw.Obj? {
      var f := raw.fields;
      var p, q := [Key("regions"), At(i)], [Key("regions"), At(j)];
      if clock {
        SelectPathFree(f, ["source", "sink"], [Key("required_clock_connections"), At(i)],
                       [Key("required_clock_connections"), At(j)]);
      } else if Get(f, "kind") == Str("csr") {
        CsrPathFree(f, p, q);
      } else if Get(f, "kind") == Str("ddr_ring") {
        RingPathFree(f, p, q);
      }
    }
  }

  lemma CsrPathFree(f: Fields, p: Path, q: Path)
    ensures ProjectCsr(f, p).Ok? == ProjectCsr(f, q).Ok?
    ensures ProjectCsr(f, p).Ok? ==> ProjectCsr(f, p) == ProjectCsr(f, q)
  {
    hide Select;
    SelectPathFree(f, CSR_KEYS, p, q);
    var access := Get(f, "access");
    if access.Obj? {
      SelectPathFree(access.fields, ACCESS_KEYS, p + [Key("access")], q + [Key("access")]);
    }
  }

  lemma RingPathFree(f: Fields, p: Path, q: Path)
    ensures ProjectRing(f, p).Ok? == ProjectRing(f, q).Ok?
    ensures ProjectRing(f, p).Ok? ==> ProjectRing(f, p) == ProjectRing(f, q)
  {
    hide Select;
    var t, r, c := Get(f, "address_translation"), Get(f, "record_contract"), Get(f, "pointer_contract");
    if t.Obj? && r.Obj? && c.Obj? {
      SelectPathFree(f, RING_KEYS, p, q);
      SelectPathFree(r.fields, RECORD_KEYS, p + [Key("record_contract")], q + [Key("record_contract")]);
      SelectPathFree(c.fields, CURSOR_KEYS, p + [Key("pointer_contract")], q + [Key("pointer_contract")]);
      SelectPathFree(t.fields, TRANSLATION_KEYS, p + [Key("address_translation")], q + [Key("address_translation")]);
    }
  }

  /** Rows succeed exactly when every item does, and item by item. */
  lemma {:induction false} RowsPointwise(clock: bool, items: seq<Json>, show: Json -> string)
    ensures Rows(clock, items, show).Ok? <==> forall x :: x in items ==> RowOf(clock, x, 0, show).Ok?
    ensures Rows(clock, items, show).Ok? ==>
              && |Rows(clock, items, show).value| == |items|
              && forall k :: 0 <= k < |items| ==> Rows(clock, items, show).value[k] == RowOf(clock, items[k], 0, show).value
  {
    hide RowOf;
    if items != [] {
      var n := |items| - 1;
      RowsPointwise(clock, items[..n], show);
      RowIndexFree(clock, items[n], n, 0, show);
      assert items == items[..n] + [items[n]];
    }
  }

  /** Permuted items give permuted rows. */
  lemma {:induction false} RowsPermuted(clock: bool, items: seq<Json>, items': seq<Json>, show: Json -> string)
    requires multiset(items) == multiset(items') && Rows(clock, items, show).Ok?
    ensures Rows(clock, items', show).Ok?
    ensures multiset(Rows(clock, items, show).value) == multiset(Rows(clock, items', show).value)
    decreases |items'|
  {
    hide RowOf, Rows;
    RowsPointwise(clock, items, show);
    forall x | x in items' ensures x in items { assert x in multiset(items'); }
    RowsPointwise(clock, items', show);
    assert |items| == |multiset(items)| == |items'|;
    RowBags(clock, items, items', show);
  }

  /** The rows of an item list as a bag, item by item. */
  ghost function Bag(clock: bool, items: seq<Json>, show: Json -> string): multiset<Row<Fields>>
    requires forall x :: x in items ==> RowOf(clock, x, 0, show).Ok?
  {
    if items == [] then multiset{}
    else
      assert forall x :: x in items[..|items| - 1] ==> x in items;
      Bag(clock, items[..|items| - 1], show) + multiset{RowOf(clock, items[|items| - 1], 0, show).value}
  }

  ghost predicate AllRows(clock: bool, items: seq<Json>, show: Json -> string) {
    forall x :: x in items ==> RowOf(clock, x, 0, show).Ok?
  }

  lemma BagSnoc(clock: bool, items: seq<Json>, x: Json, show: Json -> string)
    requires AllRows(clock, items, show) && RowOf(clock, x, 0, show).Ok?
    ensures AllRows(clock, items + [x], show)
    ensures Bag(clock, items + [x], show) == Bag(clock, items, show) + multiset{RowOf(clock, x, 0, show).value}
  {
    hide RowOf;
    assert (items + [x])[..|items|] == items;
  }

  /** An item contributes its row wherever it stands. */
  lemma {:induction false} BagMove(clock: bool, a: seq<Json>, z: Json, b: seq<Json>, show: Json -> string)
    requires AllRows(clock, a, show) && AllRows(clock, b, show) && RowOf(clock, z, 0, show).Ok?
    ensures AllRows(clock, a + [z] + b, show) && AllRows(clock, a + b, show)
    ensures Bag(clock, a + [z] + b, show) == Bag(clock, a + b, show) + multiset{RowOf(clock, z, 0, show).value}
    decreases |b|
  {
    hide RowOf, Bag;
    if b == [] {
      BagSnoc(clock, a, z, show);
      assert a + [z] + b == a + [z] && a + b == a;
    } else {
      var c, w := b[..|b| - 1], b[|b| - 1];
      BagMove(clock, a, z, c, show);
      BagSnoc(clock, a + [z] + c, w, show);
      BagSnoc(clock, a + c, w, show);
      assert a + [z] + b == a + [z] + c + [w] && a + b == a + c + [w];
    }
  }

  lemma {:induction false} BagPermuted(clock: bool, items: seq<Json>, items': seq<Json>, show: Json -> string)
    requires multiset(items) == multiset(items')
    requires forall x :: x in items ==> RowOf(clock, x, 0, show).Ok?
    requires forall x :: x in items' ==> RowOf(clock, x, 0, show).Ok?
    ensures Bag(clock, items, show) == Bag(clock, items', show)
    decreases |items'|
  {
    hide RowOf, Bag;
    assert |items| == |multiset(items)| == |items'|;
    if items' == [] {
      assert items == items';
    } else {
      var u, z := items'[..|items'| - 1], items'[|items'| - 1];
      assert items' == u + [z];
      assert z in multiset(items);
      var i :| 0 <= i < |items| && items[i] == z;
      var cut := items[..i] + items[i + 1..];
      assert items == items[..i] + [z] + items[i + 1..];
      assert multiset(cut) == multiset(items) - multiset{z};
      assert multiset(u) == multiset(items') - multiset{z};
      BagMove(clock, items[..i], z, items[i + 1..], show);
      BagSnoc(clock, u, z, show);
      BagPermuted(clock, cut, u, show);
    }
  }

  lemma {:induction false} RowsAreBag(clock: bool, items: seq<Json>, show: Json -> string)
    requires Rows(clock, items, show).Ok?
    ensures forall x :: x in items ==> RowOf(clock, x, 0, show).Ok?
    ensures multiset(Rows(clock, items, show).value) == Bag(clock, items, show)
  {
    hide RowOf;
    RowsPointwise(clock, items, show);
    if items != [] {
      var n := |items| - 1;
      RowsAreBag(clock, items[..n], show);
      RowIndexFree(clock, items[n], n, 0, show);
    }
  }

  lemma RowBags(clock: bool, items: seq<Json>, items': seq<Json>, show: Json -> string)
    requires multiset(items) == multiset(items')
    requires Rows(clock, items, show).Ok? && Rows(clock, items', show).Ok?
    ensures multiset(Rows(clock, items, show).value) == multiset(Rows(clock, items', show).value)
  {
    hide RowOf, Rows, Bag;
    RowsAreBag(clock, items, show);
    RowsAreBag(clock, items', show);
    BagPermuted(clock, items, items', show);
  }

  /** A clock row whose two ends are strings. */
  predicate StringClock(raw: Json) { raw.Obj? && Get(raw.fields, "source").Str? && Get(raw.fields, "sink").Str? }

  lemma ClockKeysDecide(items: seq<Json>, show: Json -> string)
    requires forall x :: x in items ==> StringClock(x)
    ensures Rows(true, items, show).Ok? && KeysDecide(Rows(true, items, show).value)
  {
    hide Rows;
    forall x | x in items
      ensures RowOf(true, x, 0, show).Ok?
      ensures var r := RowOf(true, x, 0, show).value;
              |r.key| == 2 && r.value == map["source" := Str(r.key[0]), "sink" := Str(r.key[1])]
    {
      ClockRowForm(x, show);
    }
    RowsPointwise(true, items, show);
    var rows := Rows(true, items, show).value;
    forall a | a in rows ensures |a.key| == 2 && a.value == map["source" := Str(a.key[0]), "sink" := Str(a.key[1])] {
      var k :| 0 <= k < |rows| && rows[k] == a;
      assert items[k] in items;
    }
  }

  lemma ClockRowForm(raw: Json, show: Json -> string)
    requires StringClock(raw)
    ensures RowOf(true, raw, 0, show).Ok?
    ensures var r := RowOf(true, raw, 0, show).value;
            |r.key| == 2 && r.value == map["source" := Str(r.key[0]), "sink" := Str(r.key[1])]
  {
    hide Select;
    var f, p := raw.fields, [Key("required_clock_connections"), At(0)];
    var keys := ["source", "sink"];
    SelectMeaning(f, keys, p);
    assert keys[0] == "source" && keys[1] == "sink";
    assert forall n :: n in keys <==> n == "source" || n == "sink";
    var own := Select(f, keys, p).value;
    assert own == map["source" := f["source"], "sink" := f["sink"]];
  }

  /** Region rows whose names are strings, pairwise different between positions. */
  ghost predicate DistinctNames(items: seq<Json>) {
    && (forall x :: x in items ==> x.Obj? && Get(x.fields, "name").Str?)
    && forall i, j :: 0 <= i < j < |items| ==> Get(items[i].fields, "name") != Get(items[j].fields, "name")
  }

  lemma RegionRowName(raw: Json, show: Json -> string)
    requires raw.Obj? && Get(raw.fields, "name").Str? && RowOf(false, raw, 0, show).Ok?
    ensures RowOf(false, raw, 0, show).value.key == [Get(raw.fields, "name").text]
  {
    hide ProjectCsr, ProjectRing;
    var f, p := raw.fields, [Key("regions"), At(0)];
    ProjectedName(f, p);
  }

  /** Both projections keep the region's name. */
  lemma ProjectedName(f: Fields, p: Path)
    ensures ProjectCsr(f, p).Ok? ==> Get(ProjectCsr(f, p).value, "name") == Get(f, "name")
    ensures ProjectRing(f, p).Ok? ==> Get(ProjectRing(f, p).value, "name") == Get(f, "name")
  {
    hide Select;
    assert CSR_KEYS[0] == "name" && RING_KEYS[0] == "name";
    SelectKeeps(f, CSR_KEYS, p, 0);
    SelectKeeps(f, RING_KEYS, p, 0);
  }

  lemma SelectKeeps(m: Fields, keys: seq<string>, path: Path, k: nat)
    requires k < |keys|
    ensures Select(m, keys, path).Ok? ==> Get(Select(m, keys, path).value, keys[k]) == Get(m, keys[k])
  {
    hide Select;
    SelectMeaning(m, keys, path);
  }

  lemma RegionKeysDecide(items: seq<Json>, show: Json -> string)
    requires DistinctNames(items) && Rows(false, items, show).Ok?
    ensures KeysDecide(Rows(false, items, show).value)
  {
    hide Rows, RowOf;
    RowsPointwise(false, items, show);
    var rows := Rows(false, items, show).value;
    forall k | 0 <= k < |items| ensures rows[k].key == [Get(items[k].fields, "name").text] {
      assert items[k] in items;
      RegionRowName(items[k], show);
    }
    forall a, b | a in rows && b in rows && a.key == b.key ensures a == b {
      var i :| 0 <= i < |rows| && rows[i] == a;
      var j :| 0 <= j < |rows| && rows[j] == b;
      assert [Get(items[i].fields, "name").text][0] == [Get(items[j].fields, "name").text][0];
    }
  }

  lemma SortedRowsPermuted(clock: bool, m: Fields, items: seq<Json>, items': seq<Json>, show: Json -> string)
    requires multiset(items) == multiset(items')
    requires Rows(clock, items, show).Ok? ==> KeysDecide(Rows(clock, items, show).value)
    ensures var name := if clock then "required_clock_connections" else "regions";
            var a, b := SortedRows(clock, m[name := Arr(items)], show), SortedRows(clock, m[name := Arr(items')], show);
            a.Ok? == b.Ok? && (a.Ok? ==> a == b)
  {
    hide Rows, Sort, Objects;
    if Rows(clock, items, show).Ok? {
      RowsPermuted(clock, items, items', show);
      PermutationInvariant(Rows(clock, items, show).value, Rows(clock, items', show).value);
    } else if Rows(clock, items', show).Ok? {
      RowsPermuted(clock, items', items, show);
    }
  }

  /** Replacing one row list by a permutation of it, when its keys decide its rows, changes neither
      success nor the projected value. */
  lemma RowOrderIgnored(clock: bool, m: Fields, items: seq<Json>, items': seq<Json>, show: Json -> string)
    requires multiset(items) == multiset(items')
    requires Rows(clock, items, show).Ok? ==> KeysDecide(Rows(clock, items, show).value)
    ensures var name := if clock then "required_clock_connections" else "regions";
            var a, b := Projection(m[name := Arr(items)], show), Projection(m[name := Arr(items')], show);
            a.Ok? == b.Ok? && (a.Ok? ==> a == b)
  {
    hide ReadParents, Assemble, Rows, Sort, Objects;
    var name := if clock then "required_clock_connections" else "regions";
    var x, y := m[name := Arr(items)], m[name := Arr(items')];
    NotReadKey();
    ParentsFrame(m, name, Arr(items));
    ParentsFrame(m, name, Arr(items'));
    SortedRowsPermuted(clock, m, items, items', show);
    assert SortedRows(!clock, x, show) == SortedRows(!clock, y, show);
    var p, c, r := ReadParents(x), SortedRows(true, x, show), SortedRows(false, x, show);
    if p.Ok? && c.Ok? && r.Ok? {
      AssembleFrame(m, name, Arr(items), p.value, c.value, r.value);
      AssembleFrame(m, name, Arr(items'), p.value, c.value, r.value);
    }
  }

  lemma NotReadKey()
    ensures !IsParentKey("required_clock_connections") && !IsParentKey("regions") && !IsParentKey("address_map_freeze")
    ensures !IsPlainKey("required_clock_connections") && !IsPlainKey("regions") && !IsPlainKey("address_map_freeze")
  {
  }

  /** The order of the clock connections does not matter. */
  lemma ClockOrderIgnored(m: Fields, items: seq<Json>, items': seq<Json>, show: Json -> string)
    requires multiset(items) == multiset(items') && forall x :: x in items ==> StringClock(x)
    ensures var a, b := Projection(m["required_clock_connections" := Arr(items)], show),
                        Projection(m["required_clock_connections" := Arr(items')], show);
            a.Ok? == b.Ok? && (a.Ok? ==> a == b)
  {
    hide Projection, Rows;
    ClockKeysDecide(items, show);
    RowOrderIgnored(true, m, items, items', show);
  }

  /** The order of regions with pairwise different names does not matter. */
  lemma RegionOrderIgnored(m: Fields, items: seq<Json>, items': seq<Json>, show: Json -> string)
    requires multiset(items) == multiset(items') && DistinctNames(items)
    ensures var a, b := Projection(m["regions" := Arr(items)], show), Projection(m["regions" := Arr(items')], show);
            a.Ok? == b.Ok? && (a.Ok? ==> a == b)
  {
    hide Projection, Rows;
    if Rows(false, items, show).Ok? { RegionKeysDecide(items, show); }
    RowOrderIgnored(false, m, items, items', show);
  }

  // The exact condition under which the order of a row list is forgotten.

  function KeyOf(clock: bool, own: Fields, show: Json -> string): seq<string> {
    if clock then [Shown(Get(own, "source"), show), Shown(Get(own, "sink"), show)]
    else [Shown(Get(own, "name"), show)]
  }

  ghost predicate Keyed(clock: bool, rows: seq<Row<Fields>>, show: Json -> string) {
    forall r :: r in rows ==> r.key == KeyOf(clock, r.value, show)
  }

  lemma RowsKeyed(clock: bool, items: seq<Json>, show: Json -> string)
    requires Rows(clock, items, show).Ok?
    ensures Keyed(clock, Rows(clock, items, show).value, show)
    ensures Keyed(clock, Sort(Rows(clock, items, show).value), show)
  {
    hide Rows, Sort, Select, ProjectRegion;
    RowsPointwise(clock, items, show);
    var rows := Rows(clock, items, show).value;
    forall r | r in rows ensures r.key == KeyOf(clock, r.value, show) {
      var k :| 0 <= k < |rows| && rows[k] == r;
      assert items[k] in items;
    }
    SortMeaning(rows);
    forall r | r in Sort(rows) ensures r in rows { assert r in multiset(Sort(rows)); }
  }

  lemma ObjectsInjective(clock: bool, a: seq<Row<Fields>>, b: seq<Row<Fields>>, show: Json -> string)
    requires Keyed(clock, a, show) && Keyed(clock, b, show) && Objects(a) == Objects(b)
    ensures a == b
  {
    hide KeyOf, Objects;
    forall k | 0 <= k < |a| ensures a[k] == b[k] {
      assert a[k] in a && b[k] in b;
      assert Objects(a)[k] == Objects(b)[k];
    }
  }

  ghost predicate RowOrderForgotten(clock: bool, items: seq<Json>, show: Json -> string) {
    forall items' :: multiset(items') == multiset(items) ==>
      SortedItems(clock, items', show) == SortedItems(clock, items, show)
  }

  /** A readable row list is projected alike in every order if and only if no two of its rows are
      different under one key: for regions, one name with two different projections. */
  lemma RowOrderForgottenIff(clock: bool, items: seq<Json>, show: Json -> string)
    requires Rows(clock, items, show).Ok?
    ensures RowOrderForgotten(clock, items, show) <==> KeysDecide(Rows(clock, items, show).value)
  {
    hide Rows, Sort, Objects, KeysDecide;
    if KeysDecide(Rows(clock, items, show).value) {
      forall items' | multiset(items') == multiset(items)
        ensures SortedItems(clock, items', show) == SortedItems(clock, items, show)
      {
        RowsPermuted(clock, items, items', show);
        PermutationInvariant(Rows(clock, items, show).value, Rows(clock, items', show).value);
      }
    } else {
      var items' := TwinsExchanged(clock, items, show);
    }
  }

  lemma TwinsExchanged(clock: bool, items: seq<Json>, show: Json -> string) returns (items': seq<Json>)
    requires Rows(clock, items, show).Ok? && !KeysDecide(Rows(clock, items, show).value)
    ensures multiset(items') == multiset(items)
    ensures SortedItems(clock, items', show) != SortedItems(clock, items, show)
  {
    hide Rows, Sort, Objects, RowOf, Keyed, KeysDecide;
    RowsPointwise(clock, items, show);
    var rows := Rows(clock, items, show).value;
    var lo, hi := TwinPositions(rows);
    items' := items[lo := items[hi]][hi := items[lo]];
    Exchanged(items, lo, hi);
    RowsPermuted(clock, items, items', show);
    RowsPointwise(clock, items', show);
    var rows' := Rows(clock, items', show).value;
    assert rows' == rows[lo := rows[hi]][hi := rows[lo]];
    ExchangedSort(rows, rows', lo, hi);
    RowsKeyed(clock, items, show);
    RowsKeyed(clock, items', show);
    if Objects(Sort(rows)) == Objects(Sort(rows')) {
      ObjectsInjective(clock, Sort(rows), Sort(rows'), show);
    }
  }

  // ---------- What the projection pins down ----------

  /** Equal sorted rows come from equal bags of rows. */
  lemma SameSortedSameRows(clock: bool, items: seq<Json>, items': seq<Json>, show: Json -> string)
    requires Rows(clock, items, show).Ok? && Rows(clock, items', show).Ok?
    requires SortedItems(clock, items, show) == SortedItems(clock, items', show)
    ensures multiset(Rows(clock, items, show).value) == multiset(Rows(clock, items', show).value)
  {
    hide Rows, Sort, Objects, Keyed;
    var a, b := Rows(clock, items, show).value, Rows(clock, items', show).value;
    RowsKeyed(clock, items, show);
    RowsKeyed(clock, items', show);
    ObjectsInjective(clock, Sort(a), Sort(b), show);
    SortMeaning(a);
    SortMeaning(b);
  }
}
