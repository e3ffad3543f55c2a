/** The freeze record hashed from the projection and the pinned files, and its check. */
module AddressFreeze {
  import opened Text
  import opened Json
  import opened AddressMap
  import opened AddressContent
  import opened AddressErrors

  const PINNED := ["spec/generated/csr_map.json", "sw/hps/config/trecap_hps_config.json",
                   "platform/de1soc/qsys/system_blueprint.xml"]

  /** Digests of the pinned files; a file that cannot be read is an error. */
  function PinnedDigests(files: seq<string>, fileDigest: string -> Option<string>): Checked<Fields> {
    if files == [] then Ok(map[])
    else
      var file := files[|files| - 1];
      var before :- PinnedDigests(files[..|files| - 1], fileDigest);
      var d := fileDigest(file);
      if d.None? then Err(CannotHash(file)) else Ok(before[file := Str(d.value)])
  }

  /** The record with its last two entries given. */
  function RecordMap(sha: string, pinned: Fields): Fields {
    map["revision" := Str("step4_address_map_v1"),
        "scope" := Str("source_only_structural_contract"),
        "hardware_signoff" := Bool(false),
        "canonicalization" := Str(CANONICALIZATION),
        "canonical_sha256" := Str(sha),
        "pinned_source_sha256" := Obj(pinned)]
  }

  /** The record. The digest is an arbitrary function of the projected value, since the canonical
      bytes depend on nothing else. */
  function FreezeRecord(m: Fields, show: Json -> string, digest: Json -> string, fileDigest: string -> Option<string>)
    : Checked<Json>
  {
    var projection :- Projection(m, show);
    var pinned :- PinnedDigests(PINNED, fileDigest);
    Ok(Obj(RecordMap(digest(projection), pinned)))
  }

  /** The five header constants check_freeze demands. */
  predicate HeaderOk(m: Fields) {
    && Get(m, "schema") == Str("trecap_phase2_de1soc_hps_bridge_regions_v2")
    && Get(m, "project") == Str("T_RECAP_Phase2")
    && Get(m, "board") == Str("de1soc")
    && Get(m, "contract_stage") == Str("step4_address_map_source_frozen")
    && Get(m, "status") == Str("source_frozen_pending_sopcinfo_linux_reservation_and_board_revision_signoff")
  }

  /** The four fields of the block that check_freeze tests once more by name. */
  predicate BlockOk(block: Fields) {
    && Get(block, "revision") == Str("step4_address_map_v1")
    && Get(block, "scope") == Str("source_only_structural_contract")
    && Get(block, "hardware_signoff") == Bool(false)
    && Get(block, "canonicalization") == Str(CANONICALIZATION)
  }

  /** check_freeze finds no error: header constants, the recomputed record, and the named fields. */
  predicate FreezeAccepted(m: Fields, show: Json -> string, digest: Json -> string,
                           fileDigest: string -> Option<string>)
  {
    var block := Get(m, "address_map_freeze");
    && HeaderOk(m)
    && block.Obj? && FreezeRecord(m, show, digest, fileDigest) == Ok(block)
    && BlockOk(block.fields)
  }

  // ---------- What the record says ----------

  /** v maps exactly the pinned files to their digests. */
  ghost predicate PinsFiles(v: Json, fileDigest: string -> Option<string>) {
    && v.Obj? && (forall f :: f in v.fields <==> f in PINNED)
    && forall f :: f in PINNED ==> fileDigest(f).Some? && v.fields[f] == Str(fileDigest(f).value)
  }

  /** f is the first file in the list that cannot be read. */
  ghost predicate FirstUnreadable(files: seq<string>, fileDigest: string -> Option<string>, f: string) {
    exists k :: 0 <= k < |files| && files[k] == f && UnreadableAt(files, fileDigest, k)
  }

  ghost predicate UnreadableAt(files: seq<string>, fileDigest: string -> Option<string>, k: nat)
    requires k < |files|
  {
    fileDigest(files[k]).None? && forall j :: 0 <= j < k ==> fileDigest(files[j]).Some?
  }

  lemma {:induction false} PinnedMeaning(files: seq<string>, fileDigest: string -> Option<string>)
    ensures var r := PinnedDigests(files, fileDigest);
            && (r.Ok? <==> forall f :: f in files ==> fileDigest(f).Some?)
            && (r.Ok? ==> (forall f :: f in r.value <==> f in files)
                          && forall f :: f in files ==> r.value[f] == Str(fileDigest(f).value))
            && (r.Err? ==> r.error.CannotHash? && FirstUnreadable(files, fileDigest, r.error.file))
  {
    if files != [] {
      var n := |files| - 1;
      var before := files[..n];
      PinnedMeaning(before, fileDigest);
      assert forall f :: f in files <==> f in before || f == files[n];
      var r := PinnedDigests(files, fileDigest);
      if r.Err? {
        if PinnedDigests(before, fileDigest).Err? {
          var k :| 0 <= k < n && before[k] == r.error.file && UnreadableAt(before, fileDigest, k);
          assert UnreadableAt(files, fileDigest, k);
        } else {
          forall j | 0 <= j < n ensures fileDigest(files[j]).Some? { assert before[j] in before; }
          assert UnreadableAt(files, fileDigest, n);
        }
      }
    }
  }

  lemma FirstIsUnique(files: seq<string>, fileDigest: string -> Option<string>, f: string, g: string)
    requires FirstUnreadable(files, fileDigest, f) && FirstUnreadable(files, fileDigest, g)
    ensures f == g
  {
    var j :| 0 <= j < |files| && files[j] == f && UnreadableAt(files, fileDigest, j);
    var k :| 0 <= k < |files| && files[k] == g && UnreadableAt(files, fileDigest, k);
    assert j == k;
  }

  const RECORD_NAMES := ["revision", "scope", "hardware_signoff", "canonicalization", "canonical_sha256",
                         "pinned_source_sha256"]

  /** r is the record of the projected value v: six entries and nothing else. */
  ghost predicate RecordOf(r: Json, v: Json, digest: Json -> string, fileDigest: string -> Option<string>) {
    && r.Obj? && Only(r.fields, RECORD_NAMES, {}) && BlockOk(r.fields)
    && Get(r.fields, "canonical_sha256") == Str(digest(v))
    && PinsFiles(Get(r.fields, "pinned_source_sha256"), fileDigest)
  }

  ghost predicate RecordIs(f: Fields, sha: string, pinned: Fields) {
    && Only(f, RECORD_NAMES, {}) && BlockOk(f)
    && Get(f, "canonical_sha256") == Str(sha) && Get(f, "pinned_source_sha256") == Obj(pinned)
  }

  lemma RecordMapBlock(sha: string, pinned: Fields)
    ensures BlockOk(RecordMap(sha, pinned))
  {
  }

  lemma RecordMapRest(sha: string, pinned: Fields)
    ensures var f := RecordMap(sha, pinned);
            && Only(f, RECORD_NAMES, {})
            && Get(f, "canonical_sha256") == Str(sha) && Get(f, "pinned_source_sha256") == Obj(pinned)
  {
  }

  lemma RecordUnique(f: Fields, g: Fields, sha: string, pinned: Fields)
    requires RecordIs(f, sha, pinned) && RecordIs(g, sha, pinned)
    ensures f == g
  {
    forall k | k in f || k in g ensures k in f && k in g && f[k] == g[k] {
      assert k in RECORD_NAMES;
      assert Get(f, k) == Get(g, k) != Null;
    }
  }

  lemma RecordMapIff(f: Fields, sha: string, pinned: Fields)
    ensures f == RecordMap(sha, pinned) <==> RecordIs(f, sha, pinned)
  {
    hide RecordMap, BlockOk, Only, Get;
    RecordMapBlock(sha, pinned);
    RecordMapRest(sha, pinned);
    if RecordIs(f, sha, pinned) { RecordUnique(f, RecordMap(sha, pinned), sha, pinned); }
  }

  lemma PinnedIff(own: Fields, fileDigest: string -> Option<string>)
    ensures PinnedDigests(PINNED, fileDigest) == Ok(own) <==> PinsFiles(Obj(own), fileDigest)
  {
    hide PinnedDigests;
    PinnedMeaning(PINNED, fileDigest);
    if PinsFiles(Obj(own), fileDigest) {
      assert PinnedDigests(PINNED, fileDigest).value == own;
    }
  }

  /** The record is r exactly when r has the content above for the projected value of m. */
  lemma FreezeRecordIff(m: Fields, show: Json -> string, digest: Json -> string, fileDigest: string -> Option<string>,
                        r: Json)
    ensures FreezeRecord(m, show, digest, fileDigest) == Ok(r) <==>
              exists v :: IsProjection(v, m, show) && RecordOf(r, v, digest, fileDigest)
  {
    hide Projection, PinnedDigests, IsProjection, PinsFiles, Only, BlockOk, RecordMap, Get;
    if FreezeRecord(m, show, digest, fileDigest) == Ok(r) {
      var v, pinned := Projection(m, show).value, PinnedDigests(PINNED, fileDigest).value;
      ProjectionIff(m, show, v);
      PinnedIff(pinned, fileDigest);
      RecordMapIff(r.fields, digest(v), pinned);
      assert IsProjection(v, m, show) && RecordOf(r, v, digest, fileDigest);
    }
    if v :| IsProjection(v, m, show) && RecordOf(r, v, digest, fileDigest) {
      ProjectionIff(m, show, v);
      PinnedIsObject(Get(r.fields, "pinned_source_sha256"), fileDigest);
      var pinned := Get(r.fields, "pinned_source_sha256").fields;
      PinnedIff(pinned, fileDigest);
      RecordMapIff(r.fields, digest(v), pinned);
    }
  }

  lemma PinnedIsObject(v: Json, fileDigest: string -> Option<string>)
    requires PinsFiles(v, fileDigest)
    ensures v.Obj?
  {
  }

  /** Hashing fails on f exactly when the map can be projected and f is the first unreadable file. */
  lemma CannotHashIff(m: Fields, show: Json -> string, digest: Json -> string, fileDigest: string -> Option<string>,
                      f: string)
    ensures FreezeRecord(m, show, digest, fileDigest) == Err(CannotHash(f)) <==>
              (exists v :: IsProjection(v, m, show)) && FirstUnreadable(PINNED, fileDigest, f)
  {
    hide Projection, PinnedDigests, IsProjection, FirstUnreadable, RecordMap;
    PinnedMeaning(PINNED, fileDigest);
    var projected := Projection(m, show);
    if projected.Ok? {
      ProjectionIff(m, show, projected.value);
      assert IsProjection(projected.value, m, show);
      var pinned := PinnedDigests(PINNED, fileDigest);
      if FirstUnreadable(PINNED, fileDigest, f) {
        UnreadableFails(PINNED, fileDigest, f);
        FirstIsUnique(PINNED, fileDigest, f, pinned.error.file);
      }
    } else {
      ErrorIsReal(m, show);
      forall v ensures !IsProjection(v, m, show) { ProjectionIff(m, show, v); }
    }
  }

  lemma UnreadableFails(files: seq<string>, fileDigest: string -> Option<string>, f: string)
    requires FirstUnreadable(files, fileDigest, f)
    ensures PinnedDigests(files, fileDigest).Err?
  {
    hide PinnedDigests;
    PinnedMeaning(files, fileDigest);
    var k :| 0 <= k < |files| && files[k] == f && UnreadableAt(files, fileDigest, k);
    assert files[k] in files;
  }

  lemma HeaderFrame(m: Fields, block: Json)
    ensures HeaderOk(m["address_map_freeze" := block]) <==> HeaderOk(m)
  {
    hide Get;
    GetOther(m, "address_map_freeze", block, "schema");
    GetOther(m, "address_map_freeze", block, "project");
    GetOther(m, "address_map_freeze", block, "board");
    GetOther(m, "address_map_freeze", block, "contract_stage");
    GetOther(m, "address_map_freeze", block, "status");
  }

  lemma GetOther(m: Fields, key: string, v: Json, other: string)
    requires |key| != |other|
    ensures Get(m[key := v], other) == Get(m, other)
  {
  }

  lemma RecordIsOk(m: Fields, show: Json -> string, digest: Json -> string, fileDigest: string -> Option<string>)
    requires FreezeRecord(m, show, digest, fileDigest).Ok?
    ensures FreezeRecord(m, show, digest, fileDigest).value.Obj?
    ensures BlockOk(FreezeRecord(m, show, digest, fileDigest).value.fields)
  {
    hide Projection, PinnedDigests;
    var f := FreezeRecord(m, show, digest, fileDigest).value.fields;
    RecordMapIff(f, f["canonical_sha256"].text, f["pinned_source_sha256"].fields);
  }

  /** Writing the computed record into its own source leaves the recomputed record equal to it; so
      check_freeze accepts the result exactly when the five header constants are right. */
  lemma FreezeFixpoint(m: Fields, show: Json -> string, digest: Json -> string, fileDigest: string -> Option<string>)
    requires FreezeRecord(m, show, digest, fileDigest).Ok?
    ensures var record := FreezeRecord(m, show, digest, fileDigest).value;
            var frozen := m["address_map_freeze" := record];
            && FreezeRecord(frozen, show, digest, fileDigest) == Ok(record)
            && (FreezeAccepted(frozen, show, digest, fileDigest) <==> HeaderOk(m))
  {
    hide Projection, PinnedDigests, HeaderOk, BlockOk;
    var record := FreezeRecord(m, show, digest, fileDigest).value;
    FreezeBlockIgnored(m, record, show);
    HeaderFrame(m, record);
    RecordIsOk(m, show, digest, fileDigest);
  }

  /** Drift is caught: two accepted maps with one freeze block have equally digested projections, so
      different projections under one block are a digest collision. */
  lemma FreezePinsProjection(m: Fields, m': Fields, show: Json -> string, digest: Json -> string,
                             fileDigest: string -> Option<string>)
    requires FreezeAccepted(m, show, digest, fileDigest) && FreezeAccepted(m', show, digest, fileDigest)
    requires Get(m, "address_map_freeze") == Get(m', "address_map_freeze")
    ensures Projection(m, show).Ok? && Projection(m', show).Ok?
    ensures digest(Projection(m, show).value) == digest(Projection(m', show).value)
  {
    hide Projection, PinnedDigests, HeaderOk, BlockOk;
    var a, b := FreezeRecord(m, show, digest, fileDigest).value, FreezeRecord(m', show, digest, fileDigest).value;
    assert a.fields["canonical_sha256"] == b.fields["canonical_sha256"];
  }

  /** Under a digest without collisions, two accepted maps with one freeze block agree on every
      covered field, their row lists up to order. */
  lemma FreezePinsFields(m: Fields, m': Fields, show: Json -> string, digest: Json -> string,
                         fileDigest: string -> Option<string>)
    requires FreezeAccepted(m, show, digest, fileDigest) && FreezeAccepted(m', show, digest, fileDigest)
    requires Get(m, "address_map_freeze") == Get(m', "address_map_freeze")
    requires forall a: Json, b: Json :: digest(a) == digest(b) ==> a == b
    ensures SameCoverage(m, m')
  {
    hide Projection, FreezeAccepted, SameCoverage;
    FreezePinsProjection(m, m', show, digest, fileDigest);
    ProjectionPinsFields(m, m', show);
  }

  /** check_freeze accepts exactly the maps with the right header whose freeze block has the content of
      their own record. */
  lemma FreezeAcceptedIff(m: Fields, show: Json -> string, digest: Json -> string,
                          fileDigest: string -> Option<string>)
    ensures FreezeAccepted(m, show, digest, fileDigest) <==>
              && HeaderOk(m)
              && exists v :: IsProjection(v, m, show)
                             && RecordOf(Get(m, "address_map_freeze"), v, digest, fileDigest)
  {
    hide FreezeRecord, HeaderOk, BlockOk, IsProjection, PinsFiles, Only;
    FreezeRecordIff(m, show, digest, fileDigest, Get(m, "address_map_freeze"));
  }

  /** A changed pinned file is caught: two maps accepted under two states of the files, with one freeze
      block, have one digest of every pinned file. */
  lemma FreezePinsFiles(m: Fields, m': Fields, show: Json -> string, digest: Json -> string,
                        now: string -> Option<string>, later: string -> Option<string>)
    requires FreezeAccepted(m, show, digest, now) && FreezeAccepted(m', show, digest, later)
    requires Get(m, "address_map_freeze") == Get(m', "address_map_freeze")
    ensures forall f :: f in PINNED ==> now(f).Some? && now(f) == later(f)
  {
    hide FreezeAccepted, HeaderOk, BlockOk, IsProjection, Only;
    FreezeAcceptedIff(m, show, digest, now);
    FreezeAcceptedIff(m', show, digest, later);
    var block := Get(m, "address_map_freeze");
    var v :| IsProjection(v, m, show) && RecordOf(block, v, digest, now);
    var w :| IsProjection(w, m', show) && RecordOf(block, w, digest, later);
    var pinned := Get(block.fields, "pinned_source_sha256");
    assert PinsFiles(pinned, now) && PinsFiles(pinned, later);
  }
}
