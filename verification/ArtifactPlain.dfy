/** What admission, verification and the checksum of stored artifacts do, in plain terms: over members, bytes and
    indices alone. */
module ArtifactPlain {
  import opened Bytes
  import opened JsonData
  import opened Sorting
  import opened ArtifactRecord
  import Jcs

  // ---------------------------------------------------------------- verification

  /** Member `inner` of the object that is member `outer`. */
  ghost predicate Inside(m: map<string, Json>, outer: string, inner: string, j: Json) {
    outer in m && m[outer].Object? && inner in m[outer].members && m[outer].members[inner] == j
  }

  const REQUEST_FIELD := "effect.request_digest"
  const RESPONSE_FIELD := "effect.response_digest"
  const INPUT_FIELD := "model_attestation.compute_attestation.agent_input_digest"
  const OUTPUT_FIELD := "model_attestation.compute_attestation.agent_output_digest"

  /** One of the four supported locations, and that text at its end. */
  ghost predicate Leads(capsule: map<string, Json>, field: string, text: string) {
    || (field == REQUEST_FIELD && Inside(capsule, "effect", "request_digest", Text(text)))
    || (field == RESPONSE_FIELD && Inside(capsule, "effect", "response_digest", Text(text)))
    || (&& field == INPUT_FIELD
        && "model_attestation" in capsule && capsule["model_attestation"].Object?
        && Inside(capsule["model_attestation"].members, "compute_attestation", "agent_input_digest", Text(text)))
    || (&& field == OUTPUT_FIELD
        && "model_attestation" in capsule && capsule["model_attestation"].Object?
        && Inside(capsule["model_attestation"].members, "compute_attestation", "agent_output_digest", Text(text)))
  }

  /** The digest the capsule commits to at that location. */
  ghost predicate Commits(capsule: map<string, Json>, field: string, digest: string) {
    Leads(capsule, field, digest) && Hex64(digest)
  }

  ghost predicate Committed(capsule: map<string, Json>, field: string) {
    exists digest :: Commits(capsule, field, digest)
  }

  predicate NameShape(s: string) {
    && 1 <= |s| <= 64
    && (forall i :: 0 <= i < |s| ==>
          || 'A' <= s[i] <= 'Z' || 'a' <= s[i] <= 'z' || '0' <= s[i] <= '9'
          || (i > 0 && (s[i] == '.' || s[i] == '_' || s[i] == '-')))
  }

  /** What an artifact of each retention state must hold. */
  ghost predicate ArtifactHolds(lib: Library, capsule: map<string, Json>, a: Artifact) {
    && NameShape(a.name)
    && (a.binding != "" ==> Committed(capsule, a.binding))
    && match a.state {
         case Present =>
           && a.content.Some? && (a.contentSha == "" || a.contentSha == lib.sha(a.content.value))
           && forall digest :: a.binding != "" && Commits(capsule, a.binding, digest) ==>
                lib.digestContent(a.content.value) == Some(digest)
         case Purged => a.content.None? && Hex64(a.contentSha)
         case NeverRetained => a.content.None? && a.contentSha == ""
         case Unknown(_) => false
       }
  }

  /** The capsule bytes: a padding record of exactly four members whose id is its own digest, or a capsule that
      verifies to the record's id. */
  ghost predicate CapsuleHolds(lib: Library, r: Record) {
    var d := lib.decode(r.capsule);
    if d.Some? && "record_type" in d.value && d.value["record_type"] == Text("padding") then
      && d.value.Keys == {"capsule_id", "record_type", "epistemic_type", "store_nonce"}
      && d.value["capsule_id"] == Text(r.capsuleId) && d.value["epistemic_type"] == Text("producer_claim")
      && d.value["store_nonce"].Text? && Hex64(d.value["store_nonce"].text)
      && lib.digestBody(map["record_type" := Text("padding"), "epistemic_type" := Text("producer_claim"),
                            "store_nonce" := d.value["store_nonce"]]) == Some(r.capsuleId)
    else lib.verifyCapsule(r.capsule) == Some(r.capsuleId)
  }

  /** The envelope's key is 32 bytes and one of the trusted ones. */
  ghost predicate SignerTrusted(lib: Library, r: Record, trusted: seq<seq<byte>>) {
    var key := lib.verifyEnvelope(r.capsuleId, r.envelope);
    key.Some? && |key.value| == 32 && exists i :: 0 <= i < |trusted| && trusted[i] == key.value
  }

  lemma NamePlainly(s: string)
    ensures IsName(s) <==> NameShape(s)
  {}

  lemma WalkTwo(m: map<string, Json>, x: string, y: string, text: string)
    ensures Walk(Object(m), [x, y]) == Some(Text(text)) <==> Inside(m, x, y, Text(text))
  {
    assert [x, y][1..] == [y] && [y][1..] == [];
    if x in m && m[x].Object? && y in m[x].members {
      assert Walk(m[x].members[y], []) == Some(m[x].members[y]);
      assert Walk(m[x], [y]) == Walk(m[x].members[y], []);
    }
  }

  lemma WalkThree(m: map<string, Json>, x: string, y: string, z: string, text: string)
    ensures Walk(Object(m), [x, y, z]) == Some(Text(text)) <==>
      x in m && m[x].Object? && Inside(m[x].members, y, z, Text(text))
  {
    hide Inside;
    assert [x, y, z][1..] == [y, z];
    if x in m && m[x].Object? {
      WalkTwo(m[x].members, y, z, text);
      assert m[x] == Object(m[x].members);
    }
  }

  lemma PathIs(field: string)
    ensures field == REQUEST_FIELD ==> Path(field) == Some(["effect", "request_digest"])
    ensures field == RESPONSE_FIELD ==> Path(field) == Some(["effect", "response_digest"])
    ensures field == INPUT_FIELD ==>
      Path(field) == Some(["model_attestation", "compute_attestation", "agent_input_digest"])
    ensures field == OUTPUT_FIELD ==>
      Path(field) == Some(["model_attestation", "compute_attestation", "agent_output_digest"])
    ensures Path(field).Some? <==>
      field == REQUEST_FIELD || field == RESPONSE_FIELD || field == INPUT_FIELD || field == OUTPUT_FIELD
  {
    FieldNames();
  }

  lemma LeadsIs(capsule: map<string, Json>, field: string, text: string)
    ensures field == REQUEST_FIELD ==>
      (Leads(capsule, field, text) <==> Inside(capsule, "effect", "request_digest", Text(text)))
    ensures field == RESPONSE_FIELD ==>
      (Leads(capsule, field, text) <==> Inside(capsule, "effect", "response_digest", Text(text)))
    ensures field == INPUT_FIELD ==>
      (Leads(capsule, field, text) <==>
         "model_attestation" in capsule && capsule["model_attestation"].Object?
         && Inside(capsule["model_attestation"].members, "compute_attestation", "agent_input_digest", Text(text)))
    ensures field == OUTPUT_FIELD ==>
      (Leads(capsule, field, text) <==>
         "model_attestation" in capsule && capsule["model_attestation"].Object?
         && Inside(capsule["model_attestation"].members, "compute_attestation", "agent_output_digest", Text(text)))
    ensures Leads(capsule, field, text) ==>
      field == REQUEST_FIELD || field == RESPONSE_FIELD || field == INPUT_FIELD || field == OUTPUT_FIELD
  {
    hide Inside;
    FieldNames();
  }

  lemma PathLeads(capsule: map<string, Json>, field: string, text: string)
    ensures Path(field).Some? && Walk(Object(capsule), Path(field).value) == Some(Text(text))
            <==> Leads(capsule, field, text)
  {
    hide Walk, Inside, Path, Leads, REQUEST_FIELD, RESPONSE_FIELD, INPUT_FIELD, OUTPUT_FIELD;
    PathIs(field);
    LeadsIs(capsule, field, text);
    if field == REQUEST_FIELD {
      WalkTwo(capsule, "effect", "request_digest", text);
    } else if field == RESPONSE_FIELD {
      WalkTwo(capsule, "effect", "response_digest", text);
    } else if field == INPUT_FIELD {
      WalkThree(capsule, "model_attestation", "compute_attestation", "agent_input_digest", text);
    } else if field == OUTPUT_FIELD {
      WalkThree(capsule, "model_attestation", "compute_attestation", "agent_output_digest", text);
    }
  }

  lemma FieldNames()
    ensures REQUEST_FIELD != RESPONSE_FIELD && REQUEST_FIELD != INPUT_FIELD && REQUEST_FIELD != OUTPUT_FIELD
    ensures RESPONSE_FIELD != INPUT_FIELD && RESPONSE_FIELD != OUTPUT_FIELD && INPUT_FIELD != OUTPUT_FIELD
  {
    assert |REQUEST_FIELD| == 21 && |RESPONSE_FIELD| == 22 && |INPUT_FIELD| == 56 && |OUTPUT_FIELD| == 57;
  }

  lemma DigestIs(capsule: map<string, Json>, field: string, digest: string)
    ensures DigestAt(capsule, field) == Ok(digest) <==> Commits(capsule, field, digest)
    ensures DigestAt(capsule, field).Err? ==> DigestAt(capsule, field) == Err(Invalid) && !Committed(capsule, field)
  {
    hide Path, Walk, Leads, IsDigestText, Hex64;
    PathLeads(capsule, field, digest);
    DigestTextPlainly(digest);
    if DigestAt(capsule, field).Err? && Committed(capsule, field) {
      var d :| Commits(capsule, field, d);
      PathLeads(capsule, field, d);
      DigestTextPlainly(d);
    }
  }

  lemma ArtifactIff(lib: Library, capsule: map<string, Json>, a: Artifact)
    ensures IsName(a.name) && CheckArtifact(lib, capsule, a).Ok? <==> ArtifactHolds(lib, capsule, a)
    ensures CheckArtifact(lib, capsule, a).Ok? ==>
      CheckArtifact(lib, capsule, a).value == Check(a.state, a.binding != "", a.binding != "" && a.state.Present?)
  {
    hide DigestAt, Commits, IsName, NameShape, IsDigestText, Hex64;
    NamePlainly(a.name);
    DigestTextPlainly(a.contentSha);
    var at := DigestAt(capsule, a.binding);
    DigestIs(capsule, a.binding, if at.Ok? then at.value else "");
    forall digest | Commits(capsule, a.binding, digest) ensures at == Ok(digest) {
      DigestIs(capsule, a.binding, digest);
    }
  }

  lemma CapsuleIff(lib: Library, r: Record)
    ensures CapsuleOk(lib, r) <==> CapsuleHolds(lib, r)
  {
    hide IsDigestText, Hex64;
    var d := lib.decode(r.capsule);
    if d.Some? && IsText(d.value, "record_type", "padding") {
      if PaddingOk(lib, r.capsuleId, d.value) { PaddingClosed(lib, r); }
      if d.value.Keys == PADDING_MEMBERS {
        DigestTextPlainly(if d.value["store_nonce"].Text? then d.value["store_nonce"].text else "");
        if d.value["epistemic_type"] == Text("producer_claim") { BodyIs(d.value); }
      }
    }
  }

  lemma BodyIs(m: map<string, Json>)
    requires m.Keys == PADDING_MEMBERS && m["record_type"] == Text("padding") && m["epistemic_type"] == Text("producer_claim")
    ensures m - {"capsule_id"} == map["record_type" := Text("padding"), "epistemic_type" := Text("producer_claim"),
                                      "store_nonce" := m["store_nonce"]]
  {
    assert |"capsule_id"| == 10 && |"record_type"| == 11 && |"epistemic_type"| == 14 && |"store_nonce"| == 11;
    assert "record_type"[0] != "store_nonce"[0];
  }

  /** Everything before the artifacts. */
  ghost predicate HeaderHolds(lib: Library, r: Record, trusted: seq<seq<byte>>) {
    Hex64(r.capsuleId) && CapsuleHolds(lib, r) && SignerTrusted(lib, r, trusted) && lib.decode(r.capsule).Some?
  }

  lemma HeaderIff(lib: Library, r: Record, trusted: seq<seq<byte>>)
    ensures CheckHeader(lib, r, trusted).Ok? <==> HeaderHolds(lib, r, trusted)
    ensures CheckHeader(lib, r, trusted).Ok? ==> Some(CheckHeader(lib, r, trusted).value) == lib.decode(r.capsule)
    ensures CheckHeader(lib, r, trusted) == Err(UntrustedSigner) <==>
      Hex64(r.capsuleId) && CapsuleHolds(lib, r) && lib.verifyEnvelope(r.capsuleId, r.envelope).Some?
      && !SignerTrusted(lib, r, trusted)
    ensures CheckHeader(lib, r, trusted).Err? ==> CheckHeader(lib, r, trusted).error in {Invalid, UntrustedSigner}
  {
    hide IsDigestText, Hex64, CapsuleOk, CapsuleHolds;
    DigestTextPlainly(r.capsuleId);
    CapsuleIff(lib, r);
  }

  /** A record verifies exactly when its id is 64 digits, its capsule holds, its envelope's key is trusted, every
      artifact holds against the members of the decoded capsule, and no name is used twice. */
  lemma VerifiedPlainly(lib: Library, r: Record, trusted: seq<seq<byte>>)
    ensures Verified(lib, r, trusted).Ok? <==>
      && HeaderHolds(lib, r, trusted)
      && (forall i :: 0 <= i < |r.artifacts| ==> ArtifactHolds(lib, lib.decode(r.capsule).value, r.artifacts[i]))
      && (forall i, j :: 0 <= i < j < |r.artifacts| ==> r.artifacts[i].name != r.artifacts[j].name)
  {
    hide CheckAll, CheckArtifact, ArtifactHolds, HeaderHolds, CheckHeader, IsName;
    HeaderIff(lib, r, trusted);
    if HeaderHolds(lib, r, trusted) {
      var capsule := lib.decode(r.capsule).value;
      forall i | 0 <= i < |r.artifacts|
        ensures IsName(r.artifacts[i].name) && CheckArtifact(lib, capsule, r.artifacts[i]).Ok?
                <==> ArtifactHolds(lib, capsule, r.artifacts[i])
      {
        ArtifactIff(lib, capsule, r.artifacts[i]);
      }
      CheckAllMeaning(lib, capsule, r.artifacts, |r.artifacts|);
      assert r.artifacts[..|r.artifacts|] == r.artifacts;
    }
  }

  /** What is reported: one entry an artifact, under its name, with its retention state, bound exactly when it names a
      location, and verified exactly when it is bound and its original is present. */
  lemma ReportPlainly(lib: Library, r: Record, trusted: seq<seq<byte>>)
    requires Verified(lib, r, trusted).Ok?
    ensures
      var report := Verified(lib, r, trusted).value;
      && (forall i :: 0 <= i < |r.artifacts| ==>
            var a := r.artifacts[i];
            && a.name in report && report[a.name].state == a.state
            && (report[a.name].bound <==> a.binding != "")
            && (report[a.name].verified <==> a.binding != "" && a.state.Present?))
      && (forall x :: x in report ==> exists i :: 0 <= i < |r.artifacts| && r.artifacts[i].name == x)
  {
    hide CheckAll, CheckArtifact, CheckHeader, IsName;
    HeaderIff(lib, r, trusted);
    var capsule := CheckHeader(lib, r, trusted).value;
    CheckAllMeaning(lib, capsule, r.artifacts, |r.artifacts|);
    forall i | 0 <= i < |r.artifacts|
      ensures CheckArtifact(lib, capsule, r.artifacts[i]).Ok? ==>
        CheckArtifact(lib, capsule, r.artifacts[i]).value
        == Check(r.artifacts[i].state, r.artifacts[i].binding != "",
                 r.artifacts[i].binding != "" && r.artifacts[i].state.Present?)
    {
      ArtifactIff(lib, capsule, r.artifacts[i]);
    }
  }

  /** Why an artifact that does not hold is refused: its own hash, then the digest the capsule commits to, are named
      apart; everything else is an invalid record. */
  function Trouble(lib: Library, a: Artifact, repeated: bool, committed: bool): Error {
    if !NameShape(a.name) || repeated || (a.binding != "" && !committed) then Invalid
    else if !a.state.Present? || a.content.None? then Invalid
    else if a.contentSha != "" && a.contentSha != lib.sha(a.content.value) then Corrupt
    else DigestMismatch
  }

  lemma TroubleIs(lib: Library, capsule: map<string, Json>, a: Artifact)
    requires IsName(a.name) && CheckArtifact(lib, capsule, a).Err?
    ensures CheckArtifact(lib, capsule, a) == Err(Trouble(lib, a, false, Committed(capsule, a.binding)))
  {
    hide DigestAt, Commits, IsName, NameShape, IsDigestText;
    NamePlainly(a.name);
    var at := DigestAt(capsule, a.binding);
    DigestIs(capsule, a.binding, if at.Ok? then at.value else "");
    assert at.Ok? ==> Commits(capsule, a.binding, at.value);
  }

  /** Up to artifact i everything holds under distinct names, and artifact i does not or repeats a name. */
  ghost predicate FirstBad(lib: Library, capsule: map<string, Json>, arts: seq<Artifact>, i: nat)
    requires i < |arts|
  {
    && (forall j :: 0 <= j < i ==> ArtifactHolds(lib, capsule, arts[j]))
    && (forall j, k :: 0 <= j < k < i ==> arts[j].name != arts[k].name)
    && (!ArtifactHolds(lib, capsule, arts[i]) || Repeated(arts, i))
  }

  ghost predicate Repeated(arts: seq<Artifact>, i: nat)
    requires i < |arts|
  {
    exists j :: 0 <= j < i && arts[j].name == arts[i].name
  }

  /** The error of a record that does not verify: an untrusted signer when only the signer is wrong, an invalid record
      for anything else before the artifacts, and then the first artifact's trouble. */
  lemma RefusedPlainly(lib: Library, r: Record, trusted: seq<seq<byte>>)
    ensures !HeaderHolds(lib, r, trusted) ==>
      Verified(lib, r, trusted) ==
        Err(if Hex64(r.capsuleId) && CapsuleHolds(lib, r) && lib.verifyEnvelope(r.capsuleId, r.envelope).Some?
               && !SignerTrusted(lib, r, trusted) then UntrustedSigner else Invalid)
    ensures HeaderHolds(lib, r, trusted) ==>
      forall i: nat :: i < |r.artifacts| && FirstBad(lib, lib.decode(r.capsule).value, r.artifacts, i) ==>
        Verified(lib, r, trusted) ==
          Err(Trouble(lib, r.artifacts[i], Repeated(r.artifacts, i),
                      Committed(lib.decode(r.capsule).value, r.artifacts[i].binding)))
  {
    hide CheckAll, CheckHeader, HeaderHolds, Hex64, CapsuleHolds, SignerTrusted, FirstBad, Trouble, Committed, Repeated;
    HeaderIff(lib, r, trusted);
    if HeaderHolds(lib, r, trusted) {
      var capsule := lib.decode(r.capsule).value;
      forall i: nat | i < |r.artifacts| && FirstBad(lib, capsule, r.artifacts, i)
        ensures CheckAll(lib, capsule, r.artifacts, |r.artifacts|) ==
          Err(Trouble(lib, r.artifacts[i], Repeated(r.artifacts, i), Committed(capsule, r.artifacts[i].binding)))
      {
        FirstBadStops(lib, capsule, r.artifacts, i);
      }
    }
  }

  lemma FirstBadStops(lib: Library, capsule: map<string, Json>, arts: seq<Artifact>, i: nat)
    requires i < |arts| && FirstBad(lib, capsule, arts, i)
    ensures CheckAll(lib, capsule, arts, |arts|) ==
      Err(Trouble(lib, arts[i], Repeated(arts, i), Committed(capsule, arts[i].binding)))
  {
    hide CheckArtifact, IsName, NameShape, ArtifactHolds, Committed;
    forall j | 0 <= j <= i
      ensures IsName(arts[j].name) && CheckArtifact(lib, capsule, arts[j]).Ok? <==> ArtifactHolds(lib, capsule, arts[j])
    {
      ArtifactIff(lib, capsule, arts[j]);
    }
    CheckAllMeaning(lib, capsule, arts, i);
    assert UniqueNames(arts[..i]);
    var m := CheckAll(lib, capsule, arts, i).value;
    NamePlainly(arts[i].name);
    assert arts[i].name in m <==> Repeated(arts, i);
    if IsName(arts[i].name) && CheckArtifact(lib, capsule, arts[i]).Err? { TroubleIs(lib, capsule, arts[i]); }
    CheckAllFails(lib, capsule, arts, i + 1);
  }

  // ---------------------------------------------------------------- admission

  /** All originals one after another. */
  function Originals(arts: seq<Artifact>): seq<byte> {
    if arts == [] then []
    else if arts[0].content.Some? then arts[0].content.value + Originals(arts[1..])
    else Originals(arts[1..])
  }

  lemma {:induction false} OriginalsSnoc(arts: seq<Artifact>, a: Artifact)
    ensures |Originals(arts + [a])| == |Originals(arts)| + if a.content.Some? then |a.content.value| else 0
  {
    if arts == [] {
      assert arts + [a] == [a] && [a][1..] == [];
    } else {
      assert (arts + [a])[1..] == arts[1..] + [a];
      OriginalsSnoc(arts[1..], a);
    }
  }

  lemma {:induction false} SizeIs(arts: seq<Artifact>, n: nat)
    requires n <= |arts|
    ensures ContentSize(arts, n) == |Originals(arts[..n])|
  {
    hide Originals;
    if n == 0 {
      NoOriginals();
      assert arts[..0] == [];
    } else {
      SizeIs(arts, n - 1);
      OriginalsSnoc(arts[..n - 1], arts[n - 1]);
      assert arts[..n] == arts[..n - 1] + [arts[n - 1]];
    }
  }

  lemma NoOriginals()
    ensures Originals([]) == []
  {}

  /** The bytes hashed for a present artifact; no content counts as empty. */
  function HashOf(lib: Library, a: Artifact): string {
    lib.sha(if a.content.Some? then a.content.value else [])
  }

  predicate HashWrong(lib: Library, a: Artifact) {
    a.state.Present? && a.contentSha != "" && a.contentSha != HashOf(lib, a)
  }

  /** Artifact i is the first that admission stops at: a purged one, or a present one whose given hash is wrong. */
  ghost predicate FirstStop(lib: Library, arts: seq<Artifact>, i: nat)
    requires i < |arts|
  {
    && (arts[i].state.Purged? || HashWrong(lib, arts[i]))
    && forall j :: 0 <= j < i ==> !arts[j].state.Purged? && !HashWrong(lib, arts[j])
  }

  /** Admission: at most 64 artifacts and 65535 envelope bytes, no purged original, no wrong hash, 8 MiB in all. What is
      admitted is the record with the hash of every present original filled in. */
  lemma PreparedPlainly(lib: Library, r: Record)
    ensures Prepared(lib, r).Ok? <==>
      && |r.artifacts| <= 64 && |r.envelope| <= 65535
      && (forall i :: 0 <= i < |r.artifacts| ==> !r.artifacts[i].state.Purged? && !HashWrong(lib, r.artifacts[i]))
      && |r.capsule| + |r.envelope| + |Originals(r.artifacts)| <= 8388608
    ensures Prepared(lib, r).Ok? ==>
      var p := Prepared(lib, r).value;
      && p.capsuleId == r.capsuleId && p.capsule == r.capsule && p.envelope == r.envelope
      && |p.artifacts| == |r.artifacts|
      && forall i :: 0 <= i < |r.artifacts| ==>
           p.artifacts[i] == if r.artifacts[i].state.Present? then r.artifacts[i].(contentSha := HashOf(lib, r.artifacts[i]))
                             else r.artifacts[i]
    ensures |r.artifacts| > 64 || |r.envelope| > 65535 ==> Prepared(lib, r) == Err(Invalid)
    ensures |r.artifacts| <= 64 && |r.envelope| <= 65535 ==>
      forall i: nat :: i < |r.artifacts| && FirstStop(lib, r.artifacts, i) ==>
        Prepared(lib, r) == Err(if r.artifacts[i].state.Purged? then PurgedOriginals else Corrupt)
    ensures (forall i: nat :: i < |r.artifacts| ==> !FirstStop(lib, r.artifacts, i)) && Prepared(lib, r).Err? ==>
      Prepared(lib, r) == Err(Invalid)
  {
    hide FirstProblem, ContentSize, Originals, Problem;
    var arts := r.artifacts;
    forall i | 0 <= i < |arts| ensures
      && (Problem(lib, arts[i]).None? <==> !arts[i].state.Purged? && !HashWrong(lib, arts[i]))
      && (Problem(lib, arts[i]).Some? ==>
            Problem(lib, arts[i]).value == if arts[i].state.Purged? then PurgedOriginals else Corrupt)
    {
      ProblemCases(lib, arts[i]);
    }
    SizeIs(arts, |arts|);
    assert arts[..|arts|] == arts;
    NoProblem(lib, arts, |arts|);
    forall i: nat | i < |arts| && FirstStop(lib, arts, i) ensures FirstProblem(lib, arts, |arts|) == Problem(lib, arts[i]) {
      FirstProblemAt(lib, arts, |arts|, i);
    }
    if FirstProblem(lib, arts, |arts|).Some? {
      var k :| 0 <= k < |arts| && Problem(lib, arts[k]).Some?;
      var i := FirstTroubled(lib, arts, k);
      assert FirstStop(lib, arts, i);
    }
  }

  // ---------------------------------------------------------------- the checksum

  lemma {:induction false} CodesBefore(a: string, b: string)
    ensures Jcs.LexLess(Codes(a), Codes(b)) <==> Before(a, b)
    decreases |a|
  {
    var x, y := Codes(a), Codes(b);
    if a == [] || b == [] || a[0] != b[0] {
      assert b != [] && (a == [] || a[0] < b[0]) ==> FirstDifference(a, b, 0);
      if k: nat :| FirstDifference(a, b, k) { DifferenceHead(a, b, k); }
    } else {
      assert x[1..] == Codes(a[1..]) && y[1..] == Codes(b[1..]);
      CodesBefore(a[1..], b[1..]);
      if k: nat :| FirstDifference(a[1..], b[1..], k) {
        assert a[..k + 1] == [a[0]] + a[1..][..k] && b[..k + 1] == [b[0]] + b[1..][..k];
        assert FirstDifference(a, b, k + 1);
      }
      if k: nat :| FirstDifference(a, b, k) {
        assert k > 0;
        assert a[1..][..k - 1] == a[..k][1..] && b[1..][..k - 1] == b[..k][1..];
        assert FirstDifference(a[1..], b[1..], k - 1);
      }
    }
  }

  /** What the checksum keeps of an artifact: everything but its content, and a purged one counts as present. */
  function RowOf(a: Artifact): Artifact {
    Artifact(a.name, a.binding, None, if a.state.Purged? then Present else a.state, a.contentSha)
  }

  ghost predicate Ascending(rows: seq<Artifact>) {
    forall i, j :: 0 <= i < j < |rows| ==> Before(rows[i].name, rows[j].name)
  }

  /** The rows of the checksum: one for each artifact, in ascending order of name. */
  ghost predicate Rows(arts: seq<Artifact>, rows: seq<Artifact>) {
    && |rows| == |arts| && Ascending(rows)
    && (forall a :: a in arts ==> RowOf(a) in rows)
    && (forall row :: row in rows ==> exists i :: 0 <= i < |arts| && row == RowOf(arts[i]))
  }

  /** For unique names the checksum hashes the encoded record with its artifacts replaced by those rows. */
  lemma ChecksumPlainly(lib: Library, r: Record) returns (rows: seq<Artifact>)
    requires UniqueNames(r.artifacts)
    ensures Rows(r.artifacts, rows)
    ensures Checksum(lib, r) ==
      match lib.marshal(Record(r.capsuleId, r.capsule, r.envelope, rows)) {
        case None => None
        case Some(data) => Some(lib.sha(data))
      }
  {
    hide Sort, NameLess, Rows, UniqueNames, Comparable, StrictOrder, Sorted;
    rows := Sort(NameLess, StripAll(r.artifacts));
    SortContents(NameLess, StripAll(r.artifacts));
    NameOrder();
    UniqueComparable(r.artifacts);
    SortSorted(NameLess, StripAll(r.artifacts));
    RowsAre(r.artifacts, rows);
  }

  lemma RowsAre(arts: seq<Artifact>, rows: seq<Artifact>)
    requires multiset(rows) == multiset(StripAll(arts)) && |rows| == |arts| && Sorted(NameLess, rows)
    ensures Rows(arts, rows)
  {
    hide NameLess, Before;
    SameElements(rows, StripAll(arts));
    forall i, j | 0 <= i < j < |rows| ensures Before(rows[i].name, rows[j].name) {
      LessBefore(rows[i], rows[j]);
    }
    forall a | a in arts ensures RowOf(a) in rows {
      Stripped(arts, a);
    }
    forall row | row in rows ensures exists i :: 0 <= i < |arts| && row == RowOf(arts[i]) {
      assert row in StripAll(arts);
    }
  }

  lemma SameElements<T>(a: seq<T>, b: seq<T>)
    requires multiset(a) == multiset(b)
    ensures forall x :: x in a <==> x in b
  {
    forall x ensures x in a <==> x in b {
      assert x in a <==> x in multiset(a);
      assert x in b <==> x in multiset(b);
    }
  }

  lemma Stripped(arts: seq<Artifact>, a: Artifact)
    requires a in arts
    ensures RowOf(a) in StripAll(arts)
  {
    var i :| 0 <= i < |arts| && arts[i] == a;
    assert StripAll(arts)[i] == RowOf(a);
  }

  lemma LessBefore(a: Artifact, b: Artifact)
    requires NameLess(a, b)
    ensures Before(a.name, b.name)
  {
    CodesBefore(a.name, b.name);
  }
}
