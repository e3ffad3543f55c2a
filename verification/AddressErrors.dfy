/** Every error of the semantic projection names a real defect of the document. */
module AddressErrors {
  import opened Text
  import opened Json
  import opened AddressMap

  /** One step down; a missing member reads as null. */
  function Into(v: Json, step: Step): Json {
    match step
    case Key(name) => if v.Obj? then Get(v.fields, name) else Null
    case At(index) => if v.Arr? && index < |v.items| then v.items[index] else Null
  }

  /** The value at a path. */
  function Follow(root: Json, path: Path): Json {
    if path == [] then root else Into(Follow(root, path[..|path| - 1]), path[|path| - 1])
  }

  /** What each error says about the document. */
  predicate Defect(root: Json, e: MapError) {
    match e
    case NotAnObject(path) => !Follow(root, path).Obj?
    case NotAnArray(path) => !Follow(root, path).Arr?
    case Missing(path) =>
      && path != [] && path[|path| - 1].Key?
      && var owner := Follow(root, path[..|path| - 1]);
         owner.Obj? && path[|path| - 1].name !in owner.fields
    case UnsupportedKind(path) => Follow(root, path) != Str("csr") && Follow(root, path) != Str("ddr_ring")
    case CannotHash(_) => false
  }

  lemma FollowSnoc(root: Json, path: Path, step: Step)
    ensures Follow(root, path + [step]) == Into(Follow(root, path), step)
  {
    assert (path + [step])[..|path|] == path;
  }

  lemma NoPath(root: Json)
    ensures Follow(root, []) == root
  {
  }

  lemma FollowOne(root: Json, name: string)
    ensures Follow(root, [Key(name)]) == Into(root, Key(name))
  {
    FollowSnoc(root, [], Key(name));
    assert [] + [Key(name)] == [Key(name)];
  }

  /** A failed selection misses a key of the object it selects from. */
  lemma {:induction false} SelectDefect(root: Json, m: Fields, keys: seq<string>, path: Path)
    requires Follow(root, path) == Obj(m) && Select(m, keys, path).Err?
    ensures Defect(root, Select(m, keys, path).error)
  {
    hide Follow;
    var n := |keys| - 1;
    if Select(m, keys[..n], path).Err? {
      SelectDefect(root, m, keys[..n], path);
    } else {
      assert (path + [Key(keys[n])])[..|path|] == path;
    }
  }

  /** A member that should be an object. */
  lemma MemberDefect(root: Json, m: Fields, path: Path, name: string)
    requires Follow(root, path) == Obj(m)
    ensures Follow(root, path + [Key(name)]) == Get(m, name)
    ensures RequireMapping(Get(m, name), path + [Key(name)]).Err? ==>
              Defect(root, RequireMapping(Get(m, name), path + [Key(name)]).error)
  {
    hide Follow;
    FollowSnoc(root, path, Key(name));
  }

  lemma CsrDefect(root: Json, region: Fields, path: Path)
    requires Follow(root, path) == Obj(region) && ProjectCsr(region, path).Err?
    ensures Defect(root, ProjectCsr(region, path).error)
  {
    hide Follow, Select, Defect;
    MemberDefect(root, region, path, "access");
    if Get(region, "access").Obj? {
      if Select(region, CSR_KEYS, path).Err? {
        SelectDefect(root, region, CSR_KEYS, path);
      } else {
        SelectDefect(root, Get(region, "access").fields, ACCESS_KEYS, path + [Key("access")]);
      }
    }
  }

  lemma RingDefect(root: Json, region: Fields, path: Path)
    requires Follow(root, path) == Obj(region) && ProjectRing(region, path).Err?
    ensures Defect(root, ProjectRing(region, path).error)
  {
    hide Follow, Select, Defect;
    MemberDefect(root, region, path, "address_translation");
    MemberDefect(root, region, path, "record_contract");
    MemberDefect(root, region, path, "pointer_contract");
    var t, r, c := Get(region, "address_translation"), Get(region, "record_contract"), Get(region, "pointer_contract");
    if t.Obj? && r.Obj? && c.Obj? {
      if Select(region, RING_KEYS, path).Err? {
        SelectDefect(root, region, RING_KEYS, path);
      } else if Select(r.fields, RECORD_KEYS, path + [Key("record_contract")]).Err? {
        SelectDefect(root, r.fields, RECORD_KEYS, path + [Key("record_contract")]);
      } else if Select(c.fields, CURSOR_KEYS, path + [Key("pointer_contract")]).Err? {
        SelectDefect(root, c.fields, CURSOR_KEYS, path + [Key("pointer_contract")]);
      } else {
        SelectDefect(root, t.fields, TRANSLATION_KEYS, path + [Key("address_translation")]);
      }
    }
  }

  function ListName(clock: bool): string { if clock then "required_clock_connections" else "regions" }

  lemma RowDefect(root: Json, clock: bool, raw: Json, index: nat, show: Json -> string)
    requires Follow(root, [Key(ListName(clock)), At(index)]) == raw && RowOf(clock, raw, index, show).Err?
    ensures Defect(root, RowOf(clock, raw, index, show).error)
  {
    hide Follow, Select, ProjectCsr, ProjectRing;
    var path := [Key(ListName(clock)), At(index)];
    if raw.Obj? {
      var f := raw.fields;
      if clock {
        SelectDefect(root, f, ["source", "sink"], path);
      } else if Get(f, "kind") == Str("csr") {
        CsrDefect(root, f, path);
      } else if Get(f, "kind") == Str("ddr_ring") {
        RingDefect(root, f, path);
      } else {
        MemberDefect(root, f, path, "kind");
      }
    }
  }

  lemma ItemAt(root: Json, name: string, items: seq<Json>, index: nat)
    requires Follow(root, [Key(name)]) == Arr(items) && index < |items|
    ensures Follow(root, [Key(name), At(index)]) == items[index]
  {
    hide Follow;
    FollowSnoc(root, [Key(name)], At(index));
    assert [Key(name)] + [At(index)] == [Key(name), At(index)];
  }

  lemma {:induction false} RowsDefect(root: Json, clock: bool, items: seq<Json>, n: nat, show: Json -> string)
    requires Follow(root, [Key(ListName(clock))]) == Arr(items) && n <= |items| && Rows(clock, items[..n], show).Err?
    ensures Defect(root, Rows(clock, items[..n], show).error)
    decreases n
  {
    hide Follow, RowOf, Defect;
    if n > 0 {
      assert items[..n][..n - 1] == items[..n - 1];
      if Rows(clock, items[..n - 1], show).Err? {
        RowsDefect(root, clock, items, n - 1, show);
      } else {
        ItemAt(root, ListName(clock), items, n - 1);
        RowDefect(root, clock, items[n - 1], n - 1, show);
      }
    }
  }

  lemma ListDefect(m: Fields, clock: bool, show: Json -> string)
    requires SortedRows(clock, m, show).Err?
    ensures Defect(Obj(m), SortedRows(clock, m, show).error)
  {
    hide Follow, Rows;
    FollowOne(Obj(m), ListName(clock));
    var source := Get(m, ListName(clock));
    if source.Arr? {
      assert source.items[..|source.items|] == source.items;
      RowsDefect(Obj(m), clock, source.items, |source.items|, show);
    }
  }

  /** A parent object under one name. */
  lemma TopDefect(m: Fields, name: string)
    ensures Follow(Obj(m), [Key(name)]) == Get(m, name)
    ensures RequireMapping(Get(m, name), [Key(name)]).Err? ==>
              Defect(Obj(m), RequireMapping(Get(m, name), [Key(name)]).error)
  {
    hide Follow;
    FollowOne(Obj(m), name);
  }

  lemma BridgePaths(m: Fields)
    ensures [Key("bridges")] + [Key("csr_bridge")] == [Key("bridges"), Key("csr_bridge")]
    ensures [Key("bridges"), Key("csr_bridge")] + [Key("address_translation")]
         == [Key("bridges"), Key("csr_bridge"), Key("address_translation")]
    ensures [Key("bridges")] + [Key("ddr_writer_bridge")] == [Key("bridges"), Key("ddr_writer_bridge")]
  {
  }

  lemma ParentsDefect(m: Fields)
    requires ReadParents(m).Err?
    ensures Defect(Obj(m), ReadParents(m).error)
  {
    hide Follow, Defect, Get;
    TopDefect(m, "board_profile");
    TopDefect(m, "source_spec");
    TopDefect(m, "platform_designer");
    TopDefect(m, "exports");
    TopDefect(m, "internal_interfaces");
    TopDefect(m, "bridges");
    TopDefect(m, "runtime_network");
    BridgePaths(m);
    var b := Get(m, "bridges");
    if b.Obj? {
      MemberDefect(Obj(m), b.fields, [Key("bridges")], "csr_bridge");
      MemberDefect(Obj(m), b.fields, [Key("bridges")], "ddr_writer_bridge");
      var csr := Get(b.fields, "csr_bridge");
      if csr.Obj? {
        MemberDefect(Obj(m), csr.fields, [Key("bridges"), Key("csr_bridge")], "address_translation");
      }
    }
  }

  /** Where the parents stand. */
  lemma ParentPaths(m: Fields, p: Parents)
    requires ReadParents(m) == Ok(p)
    ensures Follow(Obj(m), []) == Obj(m)
    ensures Follow(Obj(m), [Key("board_profile")]) == Obj(p.board)
    ensures Follow(Obj(m), [Key("source_spec")]) == Obj(p.spec)
    ensures Follow(Obj(m), [Key("platform_designer")]) == Obj(p.designer)
    ensures Follow(Obj(m), [Key("bridges"), Key("csr_bridge")]) == Obj(p.csr)
    ensures Follow(Obj(m), [Key("bridges"), Key("csr_bridge"), Key("address_translation")]) == Obj(p.csrTranslation)
    ensures Follow(Obj(m), [Key("bridges"), Key("ddr_writer_bridge")]) == Obj(p.ddr)
  {
    hide Get, Defect, Follow;
    assert Follow(Obj(m), []) == Obj(m) by { NoPath(Obj(m)); }
    TopDefect(m, "board_profile");
    TopDefect(m, "source_spec");
    TopDefect(m, "platform_designer");
    TopDefect(m, "bridges");
    BridgePaths(m);
    var b := Get(m, "bridges").fields;
    MemberDefect(Obj(m), b, [Key("bridges")], "csr_bridge");
    MemberDefect(Obj(m), b, [Key("bridges")], "ddr_writer_bridge");
    MemberDefect(Obj(m), p.csr, [Key("bridges"), Key("csr_bridge")], "address_translation");
  }

  lemma ChooseDefect(m: Fields, p: Parents)
    requires ReadParents(m) == Ok(p) && Choose(m, p).Err?
    ensures Defect(Obj(m), Choose(m, p).error)
  {
    hide Follow, Select, ReadParents;
    ParentPaths(m, p);
    FollowOne(Obj(m), "validation_rules");
    var root := Obj(m);
    if Select(m, LIFECYCLE_KEYS, []).Err? { SelectDefect(root, m, LIFECYCLE_KEYS, []); }
    if Select(m, IDENTITY_KEYS, []).Err? { SelectDefect(root, m, IDENTITY_KEYS, []); }
    if Select(p.board, BOARD_KEYS, [Key("board_profile")]).Err? {
      SelectDefect(root, p.board, BOARD_KEYS, [Key("board_profile")]);
    }
    if Select(p.spec, SPEC_KEYS, [Key("source_spec")]).Err? {
      SelectDefect(root, p.spec, SPEC_KEYS, [Key("source_spec")]);
    }
    if Select(p.designer, DESIGNER_KEYS, [Key("platform_designer")]).Err? {
      SelectDefect(root, p.designer, DESIGNER_KEYS, [Key("platform_designer")]);
    }
    BridgeDefect(m, p);
  }

  lemma BridgeDefect(m: Fields, p: Parents)
    requires ReadParents(m) == Ok(p)
    ensures var s := Select(p.csr, CSR_BRIDGE_KEYS, [Key("bridges"), Key("csr_bridge")]);
            s.Err? ==> Defect(Obj(m), s.error)
    ensures var s := Select(p.csrTranslation, CSR_TRANSLATION_KEYS,
                            [Key("bridges"), Key("csr_bridge"), Key("address_translation")]);
            s.Err? ==> Defect(Obj(m), s.error)
    ensures var s := Select(p.ddr, DDR_BRIDGE_KEYS, [Key("bridges"), Key("ddr_writer_bridge")]);
            s.Err? ==> Defect(Obj(m), s.error)
  {
    hide Follow, Select, ReadParents, Defect;
    ParentPaths(m, p);
    var root := Obj(m);
    var csr := [Key("bridges"), Key("csr_bridge")];
    var translation := [Key("bridges"), Key("csr_bridge"), Key("address_translation")];
    var ddr := [Key("bridges"), Key("ddr_writer_bridge")];
    if Select(p.csr, CSR_BRIDGE_KEYS, csr).Err? { SelectDefect(root, p.csr, CSR_BRIDGE_KEYS, csr); }
    if Select(p.csrTranslation, CSR_TRANSLATION_KEYS, translation).Err? {
      SelectDefect(root, p.csrTranslation, CSR_TRANSLATION_KEYS, translation);
    }
    if Select(p.ddr, DDR_BRIDGE_KEYS, ddr).Err? { SelectDefect(root, p.ddr, DDR_BRIDGE_KEYS, ddr); }
  }

  /** A failed projection reports something that is wrong with the document at the path it names. */
  lemma ErrorIsReal(m: Fields, show: Json -> string)
    requires Projection(m, show).Err?
    ensures Defect(Obj(m), Projection(m, show).error)
  {
    hide ReadParents, SortedRows, Choose, Dictionary, Defect;
    if ReadParents(m).Err? {
      ParentsDefect(m);
    } else if SortedRows(true, m, show).Err? {
      ListDefect(m, true, show);
    } else if SortedRows(false, m, show).Err? {
      ListDefect(m, false, show);
    } else {
      ChooseDefect(m, ReadParents(m).value);
    }
  }
}
