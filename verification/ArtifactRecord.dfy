/** Stored artifact records: admission, verification, purging of originals, and the storage checksum. */
module ArtifactRecord {
  import opened Bytes
  import opened JsonData
  import opened Sorting
  import Jcs

  // ---------------------------------------------------------------- records

  datatype Retention = Present | Purged | NeverRetained | Unknown(text: string)

  /** `content` is `None` for a nil slice; `binding` and `contentSha` are empty when absent. */
  datatype Artifact = Artifact(
    name: string, binding: string, content: Option<seq<byte>>, state: Retention, contentSha: string)

  datatype Record = Record(capsuleId: string, capsule: seq<byte>, envelope: seq<byte>, artifacts: seq<Artifact>)

  datatype Error = Invalid | PurgedOriginals | Corrupt | DigestMismatch | UntrustedSigner

  datatype Result<+T> = Ok(value: T) | Err(error: Error)

  /** The library calls: SHA-256 in hex, the JSON encoder, payload decoding, JCS digests, and the two verifiers. */
  datatype Library = Library(
    sha: seq<byte> -> string,
    marshal: Record -> Option<seq<byte>>,
    decode: seq<byte> -> Option<map<string, Json>>,
    digestContent: seq<byte> -> Option<string>,
    digestBody: map<string, Json> -> Option<string>,
    verifyCapsule: seq<byte> -> Option<string>,
    verifyEnvelope: (string, seq<byte>) -> Option<seq<byte>>)

  predicate Alphanumeric(c: char) {
    'A' <= c <= 'Z' || 'a' <= c <= 'z' || '0' <= c <= '9'
  }

  predicate IsName(s: string) {
    1 <= |s| <= 64 && Alphanumeric(s[0])
    && forall i :: 1 <= i < |s| ==> Alphanumeric(s[i]) || s[i] == '.' || s[i] == '_' || s[i] == '-'
  }

  /** SHA-256 in hex is 64 lower-case digits. */
  ghost predicate HexSha(lib: Library) {
    forall x :: IsDigestText(lib.sha(x))
  }

  // ---------------------------------------------------------------- admission

  const MAX_ARTIFACTS := 64
  const MAX_ENVELOPE := 65535
  const MAX_RECORD := 8 * 1024 * 1024

  function Original(a: Artifact): seq<byte> {
    if a.content.Some? then a.content.value else []
  }

  /** What refuses one artifact. */
  function Problem(lib: Library, a: Artifact): Option<Error> {
    if a.state.Purged? then Some(PurgedOriginals)
    else if a.state.Present? && a.contentSha != "" && a.contentSha != lib.sha(Original(a)) then Some(Corrupt)
    else None
  }

  function Filled(lib: Library, a: Artifact): Artifact {
    if a.state.Present? then a.(contentSha := lib.sha(Original(a))) else a
  }

  function FirstProblem(lib: Library, arts: seq<Artifact>, n: nat): Option<Error>
    requires n <= |arts|
  {
    if n == 0 then None
    else if FirstProblem(lib, arts, n - 1).Some? then FirstProblem(lib, arts, n - 1)
    else Problem(lib, arts[n - 1])
  }

  function ContentSize(arts: seq<Artifact>, n: nat): nat
    requires n <= |arts|
  {
    if n == 0 then 0 else ContentSize(arts, n - 1) + |Original(arts[n - 1])|
  }

  function FilledAll(lib: Library, arts: seq<Artifact>): seq<Artifact> {
    seq(|arts|, i requires 0 <= i < |arts| => Filled(lib, arts[i]))
  }

  function Prepared(lib: Library, r: Record): Result<Record> {
    var n := |r.artifacts|;
    if n > MAX_ARTIFACTS || |r.envelope| > MAX_ENVELOPE then Err(Invalid)
    else if FirstProblem(lib, r.artifacts, n).Some? then Err(FirstProblem(lib, r.artifacts, n).value)
    else if |r.capsule| + |r.envelope| + ContentSize(r.artifacts, n) > MAX_RECORD then Err(Invalid)
    else Ok(r.(artifacts := FilledAll(lib, r.artifacts)))
  }

  lemma {:induction false} NoProblem(lib: Library, arts: seq<Artifact>, n: nat)
    requires n <= |arts|
    ensures FirstProblem(lib, arts, n).None? <==> forall i :: 0 <= i < n ==> Problem(lib, arts[i]).None?
  {
    if n != 0 { NoProblem(lib, arts, n - 1); }
  }

  lemma {:induction false} FirstProblemAt(lib: Library, arts: seq<Artifact>, n: nat, i: nat)
    requires i < n <= |arts| && Problem(lib, arts[i]).Some?
    requires forall j :: 0 <= j < i ==> Problem(lib, arts[j]).None?
    ensures FirstProblem(lib, arts, n) == Problem(lib, arts[i])
    decreases n
  {
    if i < n - 1 { FirstProblemAt(lib, arts, n - 1, i); } else { NoProblem(lib, arts, n - 1); }
  }

  lemma {:induction false} ContentSizeSame(a: seq<Artifact>, b: seq<Artifact>, n: nat)
    requires n <= |a| && n <= |b| && forall i :: 0 <= i < n ==> a[i].content == b[i].content
    ensures ContentSize(a, n) == ContentSize(b, n)
  {
    if n != 0 { ContentSizeSame(a, b, n - 1); }
  }

  /** What admission accepts, and that an admitted record is a fixed point of admission. */
  lemma PrepareMeaning(lib: Library, r: Record)
    ensures Prepared(lib, r).Ok? <==>
      && |r.artifacts| <= MAX_ARTIFACTS && |r.envelope| <= MAX_ENVELOPE
      && (forall i :: 0 <= i < |r.artifacts| ==>
            && !r.artifacts[i].state.Purged?
            && (r.artifacts[i].state.Present? && r.artifacts[i].contentSha != "" ==>
                  r.artifacts[i].contentSha == lib.sha(Original(r.artifacts[i]))))
      && |r.capsule| + |r.envelope| + ContentSize(r.artifacts, |r.artifacts|) <= MAX_RECORD
    ensures Prepared(lib, r).Ok? ==> Prepared(lib, Prepared(lib, r).value) == Prepared(lib, r)
  {
    hide FirstProblem, ContentSize;
    NoProblem(lib, r.artifacts, |r.artifacts|);
    if Prepared(lib, r).Ok? {
      var p := Prepared(lib, r).value;
      ContentSizeSame(r.artifacts, p.artifacts, |r.artifacts|);
      NoProblem(lib, p.artifacts, |p.artifacts|);
      assert FilledAll(lib, p.artifacts) == p.artifacts;
    }
  }

  // ---------------------------------------------------------------- verification

  /** Where a supported digest location leads. */
  function Path(field: string): Option<seq<string>> {
    if field == "model_attestation.compute_attestation.agent_input_digest" then
      Some(["model_attestation", "compute_attestation", "agent_input_digest"])
    else if field == "model_attestation.compute_attestation.agent_output_digest" then
      Some(["model_attestation", "compute_attestation", "agent_output_digest"])
    else if field == "effect.request_digest" then Some(["effect", "request_digest"])
    else if field == "effect.response_digest" then Some(["effect", "response_digest"])
    else None
  }

  function Walk(j: Json, path: seq<string>): Option<Json>
    decreases |path|
  {
    if path == [] then Some(j)
    else if !j.Object? || path[0] !in j.members then None
    else Walk(j.members[path[0]], path[1..])
  }

  function DigestAt(capsule: map<string, Json>, field: string): Result<string> {
    if Path(field).None? then Err(Invalid)
    else
      var found := Walk(Object(capsule), Path(field).value);
      if found.Some? && found.value.Text? && IsDigestText(found.value.text) then Ok(found.value.text) else Err(Invalid)
  }

  const PADDING_MEMBERS := {"capsule_id", "record_type", "epistemic_type", "store_nonce"}

  predicate IsText(m: map<string, Json>, key: string, text: string) {
    key in m && m[key] == Text(text)
  }

  predicate PaddingOk(lib: Library, id: string, padding: map<string, Json>) {
    && padding.Keys <= PADDING_MEMBERS
    && IsText(padding, "epistemic_type", "producer_claim")
    && "store_nonce" in padding && padding["store_nonce"].Text? && IsDigestText(padding["store_nonce"].text)
    && IsText(padding, "capsule_id", id)
    && lib.digestBody(padding - {"capsule_id"}) == Some(id)
  }

  predicate CapsuleOk(lib: Library, r: Record) {
    var decoded := lib.decode(r.capsule);
    if decoded.Some? && IsText(decoded.value, "record_type", "padding") then PaddingOk(lib, r.capsuleId, decoded.value)
    else lib.verifyCapsule(r.capsule) == Some(r.capsuleId)
  }

  /** The membership test is one-sided, yet an accepted padding record has exactly its four members. */
  lemma PaddingClosed(lib: Library, r: Record)
    requires CapsuleOk(lib, r) && lib.decode(r.capsule).Some?
    requires IsText(lib.decode(r.capsule).value, "record_type", "padding")
    ensures lib.decode(r.capsule).value.Keys == PADDING_MEMBERS
  {
    var keys := lib.decode(r.capsule).value.Keys;
    assert "capsule_id" in keys && "record_type" in keys && "epistemic_type" in keys && "store_nonce" in keys;
  }

  datatype Check = Check(state: Retention, bound: bool, verified: bool)

  /** What one artifact must satisfy, and what is reported of it. */
  function CheckArtifact(lib: Library, capsule: map<string, Json>, a: Artifact): Result<Check> {
    var committed := if a.binding == "" then Ok("") else DigestAt(capsule, a.binding);
    if committed.Err? then Err(committed.error)
    else
      match a.state
      case Present =>
        if a.content.None? then Err(Invalid)
        else if a.contentSha != "" && a.contentSha != lib.sha(a.content.value) then Err(Corrupt)
        else if a.binding != "" && lib.digestContent(a.content.value) != Some(committed.value) then Err(DigestMismatch)
        else Ok(Check(Present, a.binding != "", a.binding != ""))
      case Purged =>
        if a.content.Some? || !IsDigestText(a.contentSha) then Err(Invalid) else Ok(Check(Purged, a.binding != "", false))
      case NeverRetained =>
        if a.content.Some? || a.contentSha != "" then Err(Invalid)
        else Ok(Check(NeverRetained, a.binding != "", false))
      case Unknown(_) => Err(Invalid)
  }

  function CheckAll(lib: Library, capsule: map<string, Json>, arts: seq<Artifact>, n: nat): Result<map<string, Check>>
    requires n <= |arts|
  {
    if n == 0 then Ok(map[])
    else
      var before := CheckAll(lib, capsule, arts, n - 1);
      var a := arts[n - 1];
      if before.Err? then before
      else if !IsName(a.name) || a.name in before.value then Err(Invalid)
      else
        var c := CheckArtifact(lib, capsule, a);
        if c.Err? then Err(c.error) else Ok(before.value[a.name := c.value])
  }

  predicate Authorized(key: seq<byte>, trusted: seq<seq<byte>>) {
    |key| == 32 && key in trusted
  }

  /** The checks before any artifact is looked at. */
  function CheckHeader(lib: Library, r: Record, trusted: seq<seq<byte>>): Result<map<string, Json>> {
    if !IsDigestText(r.capsuleId) || !CapsuleOk(lib, r) then Err(Invalid)
    else
      var key := lib.verifyEnvelope(r.capsuleId, r.envelope);
      if key.None? then Err(Invalid)
      else if !Authorized(key.value, trusted) then Err(UntrustedSigner)
      else
        var decoded := lib.decode(r.capsule);
        if decoded.None? then Err(Invalid) else Ok(decoded.value)
  }

  function Verified(lib: Library, r: Record, trusted: seq<seq<byte>>): Result<map<string, Check>> {
    var capsule := CheckHeader(lib, r, trusted);
    if capsule.Err? then Err(capsule.error) else CheckAll(lib, capsule.value, r.artifacts, |r.artifacts|)
  }

  ghost predicate UniqueNames(arts: seq<Artifact>) {
    forall i, j :: 0 <= i < j < |arts| ==> arts[i].name != arts[j].name
  }

  /** The report has one entry an artifact, under its name. */
  ghost predicate Reports(lib: Library, capsule: map<string, Json>, arts: seq<Artifact>, n: nat, m: map<string, Check>)
    requires n <= |arts|
  {
    && (forall i :: 0 <= i < n ==> arts[i].name in m && CheckArtifact(lib, capsule, arts[i]) == Ok(m[arts[i].name]))
    && (forall x :: x in m ==> exists i :: 0 <= i < n && arts[i].name == x)
  }

  ghost predicate AllAccepted(lib: Library, capsule: map<string, Json>, arts: seq<Artifact>, n: nat)
    requires n <= |arts|
  {
    forall i :: 0 <= i < n ==> IsName(arts[i].name) && CheckArtifact(lib, capsule, arts[i]).Ok?
  }

  /** Verification of the artifacts is independent of order: each name well formed and used once, each artifact
      acceptable by itself, and the report lists exactly these. */
  lemma {:induction false} CheckAllMeaning(lib: Library, capsule: map<string, Json>, arts: seq<Artifact>, n: nat)
    requires n <= |arts|
    ensures CheckAll(lib, capsule, arts, n).Ok? <==> AllAccepted(lib, capsule, arts, n) && UniqueNames(arts[..n])
    ensures CheckAll(lib, capsule, arts, n).Ok? ==>
      Reports(lib, capsule, arts, n, CheckAll(lib, capsule, arts, n).value)
  {
    hide IsName, CheckArtifact;
    if n != 0 {
      CheckAllMeaning(lib, capsule, arts, n - 1);
      UniqueSnoc(arts, n);
      if CheckAll(lib, capsule, arts, n - 1).Ok? {
        var m := CheckAll(lib, capsule, arts, n - 1).value;
        assert arts[n - 1].name in m <==> exists i :: 0 <= i < n - 1 && arts[i].name == arts[n - 1].name;
      }
    }
  }

  lemma UniqueSnoc(arts: seq<Artifact>, n: nat)
    requires 0 < n <= |arts|
    ensures UniqueNames(arts[..n]) <==>
      UniqueNames(arts[..n - 1]) && !exists i :: 0 <= i < n - 1 && arts[i].name == arts[n - 1].name
  {
    assert forall i :: 0 <= i < n - 1 ==> arts[..n][i] == arts[..n - 1][i] == arts[i];
    assert arts[..n][n - 1] == arts[n - 1];
  }

  // ---------------------------------------------------------------- the storage checksum

  function Codes(s: string): seq<int> {
    seq(|s|, i requires 0 <= i < |s| => s[i] as int)
  }

  predicate NameLess(a: Artifact, b: Artifact) {
    Jcs.LexLess(Codes(a.name), Codes(b.name))
  }

  /** What the checksum keeps of an artifact: not its content, and not whether the original was purged. */
  function Strip(a: Artifact): Artifact {
    a.(content := None, state := if a.state.Purged? then Present else a.state)
  }

  function StripAll(arts: seq<Artifact>): seq<Artifact> {
    seq(|arts|, i requires 0 <= i < |arts| => Strip(arts[i]))
  }

  /** The record the checksum is computed over. */
  function Inventory(r: Record): Record {
    r.(artifacts := Sort(NameLess, StripAll(r.artifacts)))
  }

  function Checksum(lib: Library, r: Record): Option<string> {
    var data := lib.marshal(Inventory(r));
    if data.None? then None else Some(lib.sha(data.value))
  }

  lemma NameOrder()
    ensures StrictOrder(NameLess)
  {
    forall x: Artifact ensures !NameLess(x, x) { Jcs.LexFacts(Codes(x.name), [], []); }
    forall x: Artifact, y: Artifact, z: Artifact | NameLess(x, y) && NameLess(y, z) ensures NameLess(x, z) {
      Jcs.LexFacts(Codes(x.name), Codes(y.name), Codes(z.name));
    }
  }

  lemma CodesInjective(a: string, b: string)
    requires Codes(a) == Codes(b)
    ensures a == b
  {
    assert |a| == |Codes(a)| == |b|;
    forall i | 0 <= i < |a| ensures a[i] == b[i] {
      assert Codes(a)[i] == Codes(b)[i];
    }
  }

  lemma UniqueComparable(arts: seq<Artifact>)
    requires UniqueNames(arts)
    ensures Comparable(NameLess, StripAll(arts))
  {
    var s := StripAll(arts);
    forall i, j | 0 <= i < j < |s| ensures NameLess(s[i], s[j]) || NameLess(s[j], s[i]) {
      Jcs.LexFacts(Codes(s[i].name), Codes(s[j].name), []);
      assert arts[i].name != arts[j].name;
      if Codes(s[i].name) == Codes(s[j].name) { CodesInjective(s[i].name, s[j].name); }
    }
  }

  ghost predicate SameInventory(a: Record, b: Record) {
    a.capsuleId == b.capsuleId && a.capsule == b.capsule && a.envelope == b.envelope
    && multiset(StripAll(a.artifacts)) == multiset(StripAll(b.artifacts))
  }

  /** For records with unique names, the order of the artifacts never shows in what the checksum covers, and
      nothing else is lost from it: no row, name, binding, hash or retention other than purging. */
  lemma InventoryExactly(a: Record, b: Record)
    requires UniqueNames(a.artifacts) && UniqueNames(b.artifacts)
    ensures Inventory(a) == Inventory(b) <==> SameInventory(a, b)
  {
    hide Sort, NameLess, StrictOrder, Comparable, UniqueNames, Strip;
    var s, t := StripAll(a.artifacts), StripAll(b.artifacts);
    SortContents(NameLess, s);
    SortContents(NameLess, t);
    if SameInventory(a, b) {
      NameOrder();
      UniqueComparable(a.artifacts);
      UniqueComparable(b.artifacts);
      SortCanonical(NameLess, s, t);
    }
    if Inventory(a) == Inventory(b) {
      assert Sort(NameLess, s) == Inventory(a).artifacts == Inventory(b).artifacts == Sort(NameLess, t);
      assert a.capsuleId == Inventory(a).capsuleId && a.capsule == Inventory(a).capsule && a.envelope == Inventory(a).envelope;
    }
  }

  ghost predicate MarshalInjective(lib: Library) {
    forall x: Record, y: Record :: lib.marshal(x).Some? && lib.marshal(x) == lib.marshal(y) ==> x == y
  }

  /** Equal checksums mean equal inventories, or two different encodings with one SHA-256. */
  lemma ChecksumExactly(lib: Library, a: Record, b: Record)
    requires UniqueNames(a.artifacts) && UniqueNames(b.artifacts) && MarshalInjective(lib)
    ensures SameInventory(a, b) ==> Checksum(lib, a) == Checksum(lib, b)
    ensures Checksum(lib, a).Some? && Checksum(lib, a) == Checksum(lib, b) ==>
      || SameInventory(a, b)
      || (lib.marshal(Inventory(a)) != lib.marshal(Inventory(b))
          && lib.sha(lib.marshal(Inventory(a)).value) == lib.sha(lib.marshal(Inventory(b)).value))
  {
    hide Inventory, SameInventory, UniqueNames;
    InventoryExactly(a, b);
  }

  // ---------------------------------------------------------------- purging

  /** Erase a present original and keep its hash. */
  function Erase(a: Artifact): Artifact {
    if a.state.Present? then a.(content := None, state := Purged) else a
  }

  /** Erase the originals with the given names. */
  function Purge(r: Record, names: set<string>): Record {
    r.(artifacts := seq(|r.artifacts|, i requires 0 <= i < |r.artifacts| =>
                          if r.artifacts[i].name in names then Erase(r.artifacts[i]) else r.artifacts[i]))
  }

  lemma EraseAccepted(lib: Library, capsule: map<string, Json>, a: Artifact)
    requires HexSha(lib) && (a.state.Present? ==> a.contentSha == lib.sha(Original(a)))
    requires CheckArtifact(lib, capsule, a).Ok?
    ensures CheckArtifact(lib, capsule, Erase(a)).Ok?
    ensures CheckArtifact(lib, capsule, Erase(a)).value.bound == CheckArtifact(lib, capsule, a).value.bound
    ensures CheckArtifact(lib, capsule, Erase(a)).value.state == if a.state.Present? then Purged else a.state
  {
    hide IsDigestText, DigestAt;
    assert IsDigestText(lib.sha(Original(a)));
  }

  /** The report after a purge: the same names and bound flags, and the erased originals shown as purged. */
  ghost predicate SameReport(before: map<string, Check>, after: map<string, Check>, names: set<string>) {
    before.Keys == after.Keys
    && forall x :: x in before ==>
         && after[x].bound == before[x].bound
         && after[x].state == (if x in names && before[x].state.Present? then Purged else before[x].state)
  }

  lemma CheckedState(lib: Library, capsule: map<string, Json>, a: Artifact)
    requires CheckArtifact(lib, capsule, a).Ok?
    ensures CheckArtifact(lib, capsule, a).value.state == a.state
  {
    hide DigestAt, IsDigestText;
  }

  /** How the check of an artifact moves when it is perhaps erased. */
  ghost predicate CheckMoves(before: Result<Check>, after: Result<Check>, erased: bool) {
    && before.Ok? && after.Ok? && after.value.bound == before.value.bound
    && after.value.state == if erased && before.value.state.Present? then Purged else before.value.state
  }

  lemma PurgeMoves(lib: Library, capsule: map<string, Json>, r: Record, names: set<string>, i: nat)
    requires HexSha(lib) && i < |r.artifacts| && CheckArtifact(lib, capsule, r.artifacts[i]).Ok?
    requires r.artifacts[i].state.Present? ==> r.artifacts[i].contentSha == lib.sha(Original(r.artifacts[i]))
    ensures Purge(r, names).artifacts[i].name == r.artifacts[i].name
    ensures CheckMoves(CheckArtifact(lib, capsule, r.artifacts[i]),
                       CheckArtifact(lib, capsule, Purge(r, names).artifacts[i]), r.artifacts[i].name in names)
  {
    hide CheckArtifact, HexSha;
    EraseAccepted(lib, capsule, r.artifacts[i]);
    CheckedState(lib, capsule, r.artifacts[i]);
  }

  lemma ReportsMove(lib: Library, capsule: map<string, Json>, a: seq<Artifact>, b: seq<Artifact>, names: set<string>,
                    before: map<string, Check>, after: map<string, Check>)
    requires |a| == |b| && Reports(lib, capsule, a, |a|, before) && Reports(lib, capsule, b, |b|, after)
    requires forall i :: 0 <= i < |a| ==>
               && a[i].name == b[i].name
               && CheckMoves(CheckArtifact(lib, capsule, a[i]), CheckArtifact(lib, capsule, b[i]), a[i].name in names)
    ensures SameReport(before, after, names)
  {
    hide CheckArtifact;
    forall x | x in before ensures
      x in after && after[x].bound == before[x].bound
      && after[x].state == (if x in names && before[x].state.Present? then Purged else before[x].state)
    {
      var i :| 0 <= i < |a| && a[i].name == x;
      assert b[i].name == x;
    }
    forall x | x in after ensures x in before {
      var i :| 0 <= i < |b| && b[i].name == x;
      assert a[i].name == x;
    }
  }

  lemma PurgeChecks(lib: Library, capsule: map<string, Json>, r: Record, names: set<string>)
    requires HexSha(lib)
    requires forall i :: 0 <= i < |r.artifacts| ==>
               r.artifacts[i].state.Present? ==> r.artifacts[i].contentSha == lib.sha(Original(r.artifacts[i]))
    requires CheckAll(lib, capsule, r.artifacts, |r.artifacts|).Ok?
    ensures CheckAll(lib, capsule, Purge(r, names).artifacts, |r.artifacts|).Ok?
    ensures SameReport(CheckAll(lib, capsule, r.artifacts, |r.artifacts|).value,
                       CheckAll(lib, capsule, Purge(r, names).artifacts, |r.artifacts|).value, names)
  {
    hide CheckAll, CheckArtifact, IsName, HexSha, Reports, SameReport;
    var a, b, n := r.artifacts, Purge(r, names).artifacts, |r.artifacts|;
    CheckAllMeaning(lib, capsule, a, n);
    CheckAllMeaning(lib, capsule, b, n);
    assert a[..n] == a && b[..n] == b;
    forall i | 0 <= i < n ensures
      && a[i].name == b[i].name
      && CheckMoves(CheckArtifact(lib, capsule, a[i]), CheckArtifact(lib, capsule, b[i]), a[i].name in names)
    {
      PurgeMoves(lib, capsule, r, names, i);
    }
    ReportsMove(lib, capsule, a, b, names, CheckAll(lib, capsule, a, n).value, CheckAll(lib, capsule, b, n).value);
  }

  /** Purging any originals of an admitted, verified record leaves it verified with the same names and bound
      flags and the same checksum, and the purged record can never be admitted again. */
  lemma PurgeInvisible(lib: Library, r: Record, trusted: seq<seq<byte>>, names: set<string>)
    requires HexSha(lib) && Prepared(lib, r).Ok? && Verified(lib, Prepared(lib, r).value, trusted).Ok?
    ensures
      var p := Prepared(lib, r).value;
      var q := Purge(p, names);
      && Verified(lib, q, trusted).Ok?
      && SameReport(Verified(lib, p, trusted).value, Verified(lib, q, trusted).value, names)
      && Checksum(lib, q) == Checksum(lib, p)
      && (q != p ==> Prepared(lib, q) == Err(PurgedOriginals))
  {
    hide CheckAll, CheckArtifact, CheckHeader, FirstProblem, ContentSize, Problem, HexSha, Sort, SameReport;
    var p := Prepared(lib, r).value;
    var q := Purge(p, names);
    var capsule := CheckHeader(lib, p, trusted).value;
    HeaderIgnoresArtifacts(lib, p, q, trusted);
    PurgeChecks(lib, capsule, p, names);
    assert StripAll(q.artifacts) == StripAll(p.artifacts);
    if q != p { PurgeRefused(lib, r, names); }
  }

  lemma HeaderIgnoresArtifacts(lib: Library, p: Record, q: Record, trusted: seq<seq<byte>>)
    requires p.capsuleId == q.capsuleId && p.capsule == q.capsule && p.envelope == q.envelope
    ensures CheckHeader(lib, p, trusted) == CheckHeader(lib, q, trusted)
  {}

  lemma PurgeRefused(lib: Library, r: Record, names: set<string>)
    requires Prepared(lib, r).Ok? && Purge(Prepared(lib, r).value, names) != Prepared(lib, r).value
    ensures Prepared(lib, Purge(Prepared(lib, r).value, names)) == Err(PurgedOriginals)
  {
    hide FirstProblem, ContentSize, Problem, Purge;
    var p := Prepared(lib, r).value;
    var q := Purge(p, names);
    PurgedProblem(lib, r, names);
    assert |q.artifacts| == |r.artifacts| && q.envelope == r.envelope;
  }

  lemma PurgedProblem(lib: Library, r: Record, names: set<string>)
    requires Prepared(lib, r).Ok? && Purge(Prepared(lib, r).value, names) != Prepared(lib, r).value
    ensures
      var q := Purge(Prepared(lib, r).value, names);
      && |q.artifacts| == |r.artifacts| && q.envelope == r.envelope
      && FirstProblem(lib, q.artifacts, |q.artifacts|) == Some(PurgedOriginals)
  {
    hide FirstProblem, ContentSize, Problem, Filled, Erase;
    var p := Prepared(lib, r).value;
    var q := Purge(p, names);
    var n := |p.artifacts|;
    NoProblem(lib, r.artifacts, n);
    assert (forall i :: 0 <= i < n ==> q.artifacts[i] == p.artifacts[i]) ==> q.artifacts == p.artifacts;
    var k :| 0 <= k < n && q.artifacts[k] != p.artifacts[k];
    PurgedOne(lib, r.artifacts[k]);
    var i := FirstTroubled(lib, q.artifacts, k);
    FirstProblemAt(lib, q.artifacts, n, i);
    PurgedOne(lib, r.artifacts[i]);
  }

  /** An admitted artifact is refused after a purge exactly if the purge erased it. */
  lemma PurgedOne(lib: Library, a: Artifact)
    requires Problem(lib, a).None?
    ensures Problem(lib, Filled(lib, a)).None?
    ensures Erase(Filled(lib, a)) != Filled(lib, a) ==> Problem(lib, Erase(Filled(lib, a))) == Some(PurgedOriginals)
    ensures Erase(Filled(lib, a)) == Filled(lib, a) ==> Problem(lib, Erase(Filled(lib, a))).None?
  {}

  lemma {:induction false} FirstTroubled(lib: Library, arts: seq<Artifact>, k: nat) returns (i: nat)
    requires k < |arts| && Problem(lib, arts[k]).Some?
    ensures i <= k && Problem(lib, arts[i]).Some? && forall j :: 0 <= j < i ==> Problem(lib, arts[j]).None?
  {
    if j :| 0 <= j < k && Problem(lib, arts[j]).Some? { i := FirstTroubled(lib, arts, j); } else { i := k; }
  }

  // ---------------------------------------------------------------- the code as written

  /** A record whose artifacts are a slice that may be shared with the caller. */
  datatype SliceRecord =
    SliceRecord(capsuleId: string, capsule: seq<byte>, envelope: seq<byte>, artifacts: array<Artifact>)
  {
    function View(): Record
      reads artifacts
    {
      Record(capsuleId, capsule, envelope, artifacts[..])
    }
  }

  /** `Prepare`: works on a fresh slice through pointers into it; the caller's slice is not written. */
  method Prepare(lib: Library, r: SliceRecord) returns (e: Option<Error>, out: SliceRecord)
    ensures fresh(out.artifacts)
    ensures match Prepared(lib, r.View()) {
              case Err(error) => e == Some(error)
              case Ok(p) => e == None && out.View() == p
            }
    ensures r.View() == old(r.View())
  {
    hide Problem, Filled, FirstProblem, ContentSize, FilledAll;
    var src := r.artifacts;
    ghost var arts := src[..];
    var copy := new Artifact[src.Length](i requires 0 <= i < src.Length reads src => src[i]);
    out := r.(artifacts := copy);
    var size := |r.capsule| + |r.envelope|;
    if copy.Length > MAX_ARTIFACTS || |r.envelope| > MAX_ENVELOPE {
      return Some(Invalid), out;
    }
    var i := 0;
    NothingYet(lib, arts);
    while i < copy.Length
      invariant 0 <= i <= copy.Length
      invariant FirstProblem(lib, arts, i).None?
      invariant size == |r.capsule| + |r.envelope| + ContentSize(arts, i)
      invariant forall k :: 0 <= k < i ==> copy[k] == Filled(lib, arts[k])
      invariant forall k :: i <= k < copy.Length ==> copy[k] == arts[k]
      invariant src[..] == arts
    {
      ProblemCases(lib, arts[i]);
      ProblemDecides(lib, arts, i + 1);
      SizeGrows(arts, i);
      if copy[i].state.Purged? {
        return Some(PurgedOriginals), out;
      }
      size := size + |Original(copy[i])|;
      if copy[i].state.Present? {
        var digest := lib.sha(Original(copy[i]));
        if copy[i].contentSha != "" && copy[i].contentSha != digest {
          return Some(Corrupt), out;
        }
        copy[i] := copy[i].(contentSha := digest);
      }
      i := i + 1;
    }
    if size > MAX_RECORD {
      return Some(Invalid), out;
    }
    FilledIs(lib, arts, copy[..]);
    return None, out;
  }

  lemma NothingYet(lib: Library, arts: seq<Artifact>)
    ensures FirstProblem(lib, arts, 0) == None && ContentSize(arts, 0) == 0
  {}

  lemma SizeGrows(arts: seq<Artifact>, i: nat)
    requires i < |arts|
    ensures ContentSize(arts, i + 1) == ContentSize(arts, i) + |Original(arts[i])|
  {}

  lemma FilledIs(lib: Library, arts: seq<Artifact>, copy: seq<Artifact>)
    requires |copy| == |arts| && forall k :: 0 <= k < |arts| ==> copy[k] == Filled(lib, arts[k])
    ensures copy == FilledAll(lib, arts)
  {
    hide Filled;
  }

  lemma ProblemCases(lib: Library, a: Artifact)
    ensures Problem(lib, a) == (if a.state.Purged? then Some(PurgedOriginals)
                                else if a.state.Present? && a.contentSha != "" && a.contentSha != lib.sha(Original(a))
                                then Some(Corrupt) else None)
    ensures Filled(lib, a) == if a.state.Present? then a.(contentSha := lib.sha(Original(a))) else a
  {}

  lemma {:induction false} ProblemDecides(lib: Library, arts: seq<Artifact>, n: nat)
    requires 0 < n <= |arts| && FirstProblem(lib, arts, n - 1).None?
    ensures FirstProblem(lib, arts, n) == Problem(lib, arts[n - 1])
    ensures Problem(lib, arts[n - 1]).Some? ==> FirstProblem(lib, arts, |arts|) == Problem(lib, arts[n - 1])
  {
    if Problem(lib, arts[n - 1]).Some? {
      NoProblem(lib, arts, n - 1);
      FirstProblemAt(lib, arts, |arts|, n - 1);
    }
  }

  /** `Verify`: fills a report artifact by artifact. */
  method Verify(lib: Library, r: SliceRecord, trusted: seq<seq<byte>>) returns (res: Result<map<string, Check>>)
    ensures res == Verified(lib, r.View(), trusted)
  {
    hide CheckArtifact, IsName;
    var header := CheckHeader(lib, r.View(), trusted);
    if header.Err? {
      return Err(header.error);
    }
    var results: map<string, Check> := map[];
    var arts := r.artifacts[..];
    var i := 0;
    while i < r.artifacts.Length
      invariant 0 <= i <= r.artifacts.Length && arts == r.artifacts[..]
      invariant CheckAll(lib, header.value, arts, i) == Ok(results)
    {
      var a := r.artifacts[i];
      i := i + 1;
      CheckAllFails(lib, header.value, arts, i);
      if !IsName(a.name) || a.name in results {
        return Err(Invalid);
      }
      var check := CheckArtifact(lib, header.value, a);
      if check.Err? {
        return Err(check.error);
      }
      results := results[a.name := check.value];
    }
    return Ok(results);
  }

  lemma {:induction false} CheckAllFails(lib: Library, capsule: map<string, Json>, arts: seq<Artifact>, n: nat)
    requires n <= |arts|
    ensures CheckAll(lib, capsule, arts, n).Err? ==>
      CheckAll(lib, capsule, arts, |arts|) == CheckAll(lib, capsule, arts, n)
    decreases |arts| - n
  {
    hide IsName, CheckArtifact;
    if n < |arts| { CheckAllFails(lib, capsule, arts, n + 1); }
  }

  /** `StorageChecksum`: overwrites and sorts a copied slice. For repeated names the library's sort leaves their
      order open; the model fixes one. */
  method StorageChecksum(lib: Library, r: SliceRecord) returns (sum: Option<string>)
    ensures sum == Checksum(lib, r.View())
    ensures r.View() == old(r.View())
  {
    hide Sort, NameLess;
    var src := r.artifacts;
    ghost var arts := src[..];
    var copy := new Artifact[src.Length](i requires 0 <= i < src.Length reads src => src[i]);
    var i := 0;
    while i < copy.Length
      invariant 0 <= i <= copy.Length && src[..] == arts
      invariant forall k :: 0 <= k < i ==> copy[k] == Strip(arts[k])
      invariant forall k :: i <= k < copy.Length ==> copy[k] == arts[k]
    {
      copy[i] := copy[i].(content := None);
      if copy[i].state.Purged? {
        copy[i] := copy[i].(state := Present);
      }
      i := i + 1;
    }
    assert copy[..] == StripAll(arts);
    SortByName(copy);
    var data := lib.marshal(Record(r.capsuleId, r.capsule, r.envelope, copy[..]));
    return if data.None? then None else Some(lib.sha(data.value));
  }

  method SortByName(a: array<Artifact>)
    modifies a
    ensures a[..] == Sort(NameLess, old(a[..]))
  {
    hide Sort, NameLess;
    var sorted := Sort(NameLess, a[..]);
    SortContents(NameLess, a[..]);
    forall i | 0 <= i < a.Length {
      a[i] := sorted[i];
    }
    assert a[..] == sorted;
  }
}
