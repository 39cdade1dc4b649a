/** Composing existing capsules into WHO, CAN, DID and AUDIT roles, whatever order they are given in. */
module Composition {
  import opened Bytes

  datatype Member = Member(slot: string, id: string, json: seq<byte>)

  datatype Reference = Reference(slot: string, digest: string)

  datatype Error =
    | NoMembers | InvalidSlot(index: nat) | DuplicateSlot(slot: string) | MalformedId(slot: string)
    | NotVerified(slot: string) | DuplicateId(slot: string, prior: string)

  datatype Result<+T> = Ok(value: T) | Err(error: Error)

  const SLOTS := ["who", "can", "did", "audit"]

  predicate IsSlot(s: string) {
    s in SLOTS
  }

  /** The id a member's own bytes verify to, if they verify. */
  type Verifier = seq<byte> -> Option<string>

  datatype Tally = Tally(bySlot: map<string, string>, seenIds: map<string, string>)

  function Place(verify: Verifier, t: Tally, m: Member, index: nat): Result<Tally> {
    if !IsSlot(m.slot) then Err(InvalidSlot(index))
    else if m.slot in t.bySlot then Err(DuplicateSlot(m.slot))
    else if !IsDigestText(m.id) then Err(MalformedId(m.slot))
    else if verify(m.json) != Some(m.id) then Err(NotVerified(m.slot))
    else if m.id in t.seenIds then Err(DuplicateId(m.slot, t.seenIds[m.id]))
    else Ok(Tally(t.bySlot[m.slot := m.id], t.seenIds[m.id := m.slot]))
  }

  function PlaceAll(verify: Verifier, ms: seq<Member>, n: nat): Result<Tally>
    requires n <= |ms|
  {
    if n == 0 then Ok(Tally(map[], map[]))
    else
      var before := PlaceAll(verify, ms, n - 1);
      if before.Err? then before else Place(verify, before.value, ms[n - 1], n - 1)
  }

  /** The references in canonical slot order. */
  function InOrder(bySlot: map<string, string>, k: nat): seq<Reference>
    requires k <= |SLOTS|
  {
    if k == 0 then []
    else InOrder(bySlot, k - 1)
         + if SLOTS[k - 1] in bySlot then [Reference(SLOTS[k - 1], bySlot[SLOTS[k - 1]])] else []
  }

  function Composed(verify: Verifier, ms: seq<Member>): Result<seq<Reference>> {
    if ms == [] then Err(NoMembers)
    else
      var t := PlaceAll(verify, ms, |ms|);
      if t.Err? then Err(t.error) else Ok(InOrder(t.value.bySlot, |SLOTS|))
  }

  // ---------------------------------------------------------------- what is accepted

  ghost predicate Sound(verify: Verifier, m: Member) {
    IsSlot(m.slot) && IsDigestText(m.id) && verify(m.json) == Some(m.id)
  }

  ghost predicate Acceptable(verify: Verifier, ms: seq<Member>) {
    && (forall m :: m in ms ==> Sound(verify, m))
    && (forall i, j :: 0 <= i < j < |ms| ==> ms[i].slot != ms[j].slot && ms[i].id != ms[j].id)
  }

  ghost predicate Records(t: Tally, ms: seq<Member>) {
    && (forall m :: m in ms ==> m.slot in t.bySlot && t.bySlot[m.slot] == m.id)
    && (forall s :: s in t.bySlot ==> Holds(ms, s))
    && (forall m :: m in ms ==> m.id in t.seenIds && t.seenIds[m.id] == m.slot)
    && (forall x :: x in t.seenIds ==> Names(ms, x))
  }

  ghost predicate Holds(ms: seq<Member>, slot: string) {
    exists m :: m in ms && m.slot == slot
  }

  ghost predicate Names(ms: seq<Member>, id: string) {
    exists m :: m in ms && m.id == id
  }

  lemma AcceptableSnoc(verify: Verifier, ms: seq<Member>, m: Member)
    ensures Acceptable(verify, ms + [m]) <==>
      Acceptable(verify, ms) && Sound(verify, m) && forall x :: x in ms ==> x.slot != m.slot && x.id != m.id
  {
    hide Sound;
    var more := ms + [m];
    if Acceptable(verify, more) {
      assert more[|ms|] == m && m in more;
      forall x | x in ms ensures x in more && x.slot != m.slot && x.id != m.id {
        var i :| 0 <= i < |ms| && ms[i] == x;
        assert more[i] == x;
      }
      forall i, j | 0 <= i < j < |ms| ensures ms[i].slot != ms[j].slot && ms[i].id != ms[j].id {
        assert more[i] == ms[i] && more[j] == ms[j];
      }
    }
    if Acceptable(verify, ms) && Sound(verify, m) && forall x :: x in ms ==> x.slot != m.slot && x.id != m.id {
      assert forall i :: 0 <= i < |ms| ==> ms[i] in ms;
    }
  }

  lemma {:induction false} PlaceAllMeaning(verify: Verifier, ms: seq<Member>, n: nat)
    requires n <= |ms|
    ensures PlaceAll(verify, ms, n).Ok? <==> Acceptable(verify, ms[..n])
    ensures PlaceAll(verify, ms, n).Ok? ==> Records(PlaceAll(verify, ms, n).value, ms[..n])
  {
    hide Acceptable, Place, Records, Sound;
    if n == 0 {
      NoneAcceptable(verify);
      NoneRecorded();
      assert ms[..0] == [];
    } else {
      PlaceAllMeaning(verify, ms, n - 1);
      assert ms[..n] == ms[..n - 1] + [ms[n - 1]];
      AcceptableSnoc(verify, ms[..n - 1], ms[n - 1]);
      if PlaceAll(verify, ms, n - 1).Ok? {
        PlaceMeaning(verify, PlaceAll(verify, ms, n - 1).value, ms[..n - 1], ms[n - 1], n - 1);
      }
    }
  }

  lemma NoneRecorded()
    ensures Records(Tally(map[], map[]), [])
  {}

  lemma NoneAcceptable(verify: Verifier)
    ensures Acceptable(verify, [])
  {}

  lemma HoldsSnoc(ms: seq<Member>, m: Member, s: string)
    ensures Holds(ms + [m], s) <==> Holds(ms, s) || m.slot == s
    ensures Names(ms + [m], s) <==> Names(ms, s) || m.id == s
  {
    assert m in ms + [m] && forall x :: x in ms ==> x in ms + [m];
  }

  lemma PlaceMeaning(verify: Verifier, t: Tally, ms: seq<Member>, m: Member, index: nat)
    requires Records(t, ms)
    ensures Place(verify, t, m, index).Ok? <==>
      Sound(verify, m) && forall x :: x in ms ==> x.slot != m.slot && x.id != m.id
    ensures Place(verify, t, m, index).Ok? ==> Records(Place(verify, t, m, index).value, ms + [m])
  {
    hide IsSlot, IsDigestText, Holds, Names;
    HoldsNamed(ms, m.slot);
    NamesNamed(ms, m.id);
    assert forall x :: x in ms + [m] <==> x in ms || x == m;
    forall s ensures Holds(ms + [m], s) <==> Holds(ms, s) || m.slot == s {
      HoldsSnoc(ms, m, s);
    }
    forall s ensures Names(ms + [m], s) <==> Names(ms, s) || m.id == s {
      HoldsSnoc(ms, m, s);
    }
  }

  lemma HoldsNamed(ms: seq<Member>, slot: string)
    ensures Holds(ms, slot) <==> !forall x :: x in ms ==> x.slot != slot
  {}

  lemma NamesNamed(ms: seq<Member>, id: string)
    ensures Names(ms, id) <==> !forall x :: x in ms ==> x.id != id
  {}

  // ---------------------------------------------------------------- order independence

  lemma {:induction false} Occurrences<T>(s: seq<T>, x: T)
    ensures multiset(s)[x] >= 1 <==> x in s
    ensures multiset(s)[x] >= 2 <==> exists i, j :: 0 <= i < j < |s| && s[i] == x && s[j] == x
  {
    if s != [] {
      var rest := s[1..];
      Occurrences(rest, x);
      assert s == [s[0]] + rest;
      assert multiset(s)[x] == multiset(rest)[x] + if s[0] == x then 1 else 0;
      if multiset(s)[x] >= 2 {
        if s[0] == x {
          var k :| 0 <= k < |rest| && rest[k] == x;
          assert s[0] == x && s[k + 1] == x;
        } else {
          var i, j :| 0 <= i < j < |rest| && rest[i] == x && rest[j] == x;
          assert s[i + 1] == x && s[j + 1] == x;
        }
      }
      if i, j :| 0 <= i < j < |s| && s[i] == x && s[j] == x {
        assert rest[j - 1] == x;
        if i > 0 { assert rest[i - 1] == x; }
      }
    }
  }

  lemma AcceptablePermuted(verify: Verifier, a: seq<Member>, b: seq<Member>)
    requires multiset(a) == multiset(b) && Acceptable(verify, a)
    ensures Acceptable(verify, b)
  {
    hide Sound;
    forall m | m in b ensures Sound(verify, m) {
      assert m in multiset(b);
    }
    forall i, j | 0 <= i < j < |b| ensures b[i].slot != b[j].slot && b[i].id != b[j].id {
      Occurrences(b, b[i]);
      Occurrences(a, b[i]);
      Occurrences(a, b[j]);
      Occurrences(b, b[j]);
      assert b[i] != b[j];
      var k :| 0 <= k < |a| && a[k] == b[i];
      var l :| 0 <= l < |a| && a[l] == b[j];
      assert k < l || l < k;
    }
  }

  /** Composition succeeds for one ordering of the members exactly when it does for every other, with the same
      composed list. */
  lemma OrderIndependent(verify: Verifier, a: seq<Member>, b: seq<Member>)
    requires multiset(a) == multiset(b)
    ensures Composed(verify, a).Ok? <==> Composed(verify, b).Ok?
    ensures Composed(verify, a).Ok? ==> Composed(verify, a) == Composed(verify, b)
  {
    hide Acceptable, Records;
    assert |a| == |multiset(a)| && |b| == |multiset(b)|;
    assert a[..|a|] == a && b[..|b|] == b;
    PlaceAllMeaning(verify, a, |a|);
    PlaceAllMeaning(verify, b, |b|);
    if Acceptable(verify, a) { AcceptablePermuted(verify, a, b); }
    if Acceptable(verify, b) { AcceptablePermuted(verify, b, a); }
    if Composed(verify, a).Ok? {
      SameSlots(PlaceAll(verify, a, |a|).value, PlaceAll(verify, b, |b|).value, a, b);
    }
  }

  lemma SameSlots(t: Tally, u: Tally, a: seq<Member>, b: seq<Member>)
    requires multiset(a) == multiset(b) && Records(t, a) && Records(u, b)
    ensures t.bySlot == u.bySlot
  {
    hide Records;
    forall m ensures m in a <==> m in b {
      assert m in a <==> m in multiset(a);
      assert m in b <==> m in multiset(b);
    }
    SlotsWithin(t, u, a, b);
    SlotsWithin(u, t, b, a);
    MapsEqual(t.bySlot, u.bySlot);
  }

  lemma MapsEqual(m: map<string, string>, n: map<string, string>)
    requires forall s :: s in m ==> s in n && n[s] == m[s]
    requires forall s :: s in n ==> s in m && m[s] == n[s]
    ensures m == n
  {}

  lemma SlotsWithin(t: Tally, u: Tally, a: seq<Member>, b: seq<Member>)
    requires (forall m :: m in a <==> m in b) && Records(t, a) && Records(u, b)
    ensures forall s :: s in t.bySlot ==> s in u.bySlot && u.bySlot[s] == t.bySlot[s]
  {
    forall s | s in t.bySlot ensures s in u.bySlot && u.bySlot[s] == t.bySlot[s] {
      assert Holds(a, s);
      var m :| m in a && m.slot == s;
      assert m in b;
    }
  }

  // ---------------------------------------------------------------- what is composed

  lemma {:induction false} InOrderMeaning(bySlot: map<string, string>, k: nat)
    requires k <= |SLOTS|
    ensures
      var refs := InOrder(bySlot, k);
      && (forall r :: r in refs <==> r.slot in SLOTS[..k] && r.slot in bySlot && r.digest == bySlot[r.slot])
      && Ascending(refs)
  {
    if k != 0 {
      InOrderMeaning(bySlot, k - 1);
      var was, refs := InOrder(bySlot, k - 1), InOrder(bySlot, k);
      assert SLOTS[..k] == SLOTS[..k - 1] + [SLOTS[k - 1]];
      if SLOTS[k - 1] in bySlot {
        var last := Reference(SLOTS[k - 1], bySlot[SLOTS[k - 1]]);
        assert refs == was + [last];
        forall i | 0 <= i < |was| ensures RankOf(was[i].slot) < k - 1 {
          assert was[i] in was;
          RankBelow(was[i].slot, k - 1);
        }
        RankAt(k - 1);
      }
    }
  }

  /** WHO, CAN, DID, AUDIT. */
  function RankOf(slot: string): nat {
    if slot == "who" then 0 else if slot == "can" then 1 else if slot == "did" then 2 else if slot == "audit" then 3 else 4
  }

  lemma RankAt(k: nat)
    requires k < |SLOTS|
    ensures RankOf(SLOTS[k]) == k
  {
    assert "who"[0] == 'w' && "can"[0] == 'c' && "did"[0] == 'd';
  }

  lemma RankBelow(s: string, k: nat)
    requires k <= |SLOTS| && s in SLOTS[..k]
    ensures RankOf(s) < k
  {
    var i :| 0 <= i < k && SLOTS[i] == s;
    RankAt(i);
  }

  /** Strictly rising slot ranks, so the slots are distinct too. */
  ghost predicate Ascending(refs: seq<Reference>) {
    forall i, j :: 0 <= i < j < |refs| ==> RankOf(refs[i].slot) < RankOf(refs[j].slot)
  }

  /** Composition succeeds exactly on a non-empty list of verified members with distinct slots and distinct ids;
      the composed list is in WHO, CAN, DID, AUDIT order and has exactly one entry a member. */
  lemma ComposedMeaning(verify: Verifier, ms: seq<Member>)
    ensures Composed(verify, ms).Ok? <==> ms != [] && Acceptable(verify, ms)
    ensures Composed(verify, ms).Ok? ==>
      var refs := Composed(verify, ms).value;
      && Ascending(refs)
      && (forall m :: m in ms ==> Reference(m.slot, m.id) in refs)
      && (forall r :: r in refs ==> exists m :: m in ms && r == Reference(m.slot, m.id))
      && |refs| == |ms|
  {
    hide Acceptable, InOrder, Ascending;
    assert ms[..|ms|] == ms;
    PlaceAllMeaning(verify, ms, |ms|);
    if Composed(verify, ms).Ok? {
      var t, refs := PlaceAll(verify, ms, |ms|).value, Composed(verify, ms).value;
      InOrderMeaning(t.bySlot, |SLOTS|);
      assert SLOTS[..|SLOTS|] == SLOTS;
      AllSlots(verify, ms);
      forall m | m in ms ensures Reference(m.slot, m.id) in refs {
        assert m.slot in t.bySlot;
      }
      forall r | r in refs ensures exists m :: m in ms && r == Reference(m.slot, m.id) {
        assert r.slot in t.bySlot && r.digest == t.bySlot[r.slot] && Holds(ms, r.slot);
        var m :| m in ms && m.slot == r.slot;
      }
      OneEach(verify, ms, refs);
    }
  }

  lemma AllSlots(verify: Verifier, ms: seq<Member>)
    requires Acceptable(verify, ms)
    ensures forall m :: m in ms ==> m.slot in SLOTS
  {}

  lemma OneEach(verify: Verifier, ms: seq<Member>, refs: seq<Reference>)
    requires Acceptable(verify, ms) && Ascending(refs)
    requires forall m :: m in ms ==> Reference(m.slot, m.id) in refs
    requires forall r :: r in refs ==> exists m :: m in ms && r == Reference(m.slot, m.id)
    ensures |refs| == |ms|
  {
    hide Sound, RankOf;
    var s := AsReferences(ms);
    Distinct(s);
    Distinct(refs);
    forall r ensures r in s <==> r in refs {
      ListedOnce(ms, r);
    }
    assert (set r | r in s) == (set r | r in refs);
  }

  function AsReferences(ms: seq<Member>): seq<Reference> {
    seq(|ms|, i requires 0 <= i < |ms| => Reference(ms[i].slot, ms[i].id))
  }

  lemma ListedOnce(ms: seq<Member>, r: Reference)
    ensures r in AsReferences(ms) <==> exists m :: m in ms && r == Reference(m.slot, m.id)
  {
    if r in AsReferences(ms) {
      var i :| 0 <= i < |ms| && AsReferences(ms)[i] == r;
      assert ms[i] in ms;
    }
    if m :| m in ms && r == Reference(m.slot, m.id) {
      var i :| 0 <= i < |ms| && ms[i] == m;
      assert AsReferences(ms)[i] == r;
    }
  }

  lemma {:induction false} Distinct<T>(s: seq<T>)
    requires forall i, j :: 0 <= i < j < |s| ==> s[i] != s[j]
    ensures |set x | x in s| == |s|
  {
    if s != [] {
      var rest := s[1..];
      Distinct(rest);
      assert s == [s[0]] + rest;
      assert s[0] !in rest;
      assert (set x | x in s) == {s[0]} + (set x | x in rest);
    }
  }

  // ---------------------------------------------------------------- the same in plain terms

  predicate FourSlots(s: string) {
    s == "who" || s == "can" || s == "did" || s == "audit"
  }

  lemma SlotNames(s: string)
    ensures IsSlot(s) <==> FourSlots(s)
  {
    assert SLOTS[0] == "who" && SLOTS[1] == "can" && SLOTS[2] == "did" && SLOTS[3] == "audit";
  }

  lemma SoundIs(verify: Verifier, m: Member)
    ensures Sound(verify, m) <==> FourSlots(m.slot) && Hex64(m.id) && verify(m.json) == Some(m.id)
  {
    hide IsSlot, FourSlots, IsDigestText, Hex64;
    SlotNames(m.slot);
    DigestTextPlainly(m.id);
  }

  /** Every member is in one of the four slots under a 64-digit id its own bytes verify to, no two in one slot or under
      one id. */
  ghost predicate Fits(verify: Verifier, ms: seq<Member>) {
    && (forall i :: 0 <= i < |ms| ==> FourSlots(ms[i].slot) && Hex64(ms[i].id) && verify(ms[i].json) == Some(ms[i].id))
    && (forall i, j :: 0 <= i < j < |ms| ==> ms[i].slot != ms[j].slot && ms[i].id != ms[j].id)
  }

  lemma FitsIs(verify: Verifier, ms: seq<Member>)
    ensures Acceptable(verify, ms) <==> Fits(verify, ms)
  {
    hide Sound, FourSlots, Hex64;
    forall m ensures Sound(verify, m) <==> FourSlots(m.slot) && Hex64(m.id) && verify(m.json) == Some(m.id) {
      SoundIs(verify, m);
    }
    if Acceptable(verify, ms) {
      forall i | 0 <= i < |ms| ensures Sound(verify, ms[i]) { assert ms[i] in ms; }
    }
  }

  /** Why member i is refused when all before it are placed: its slot is none of the four, or taken; its id is not 64
      digits, or not what its bytes verify to, or already used by the earlier member k. */
  function Blame(verify: Verifier, ms: seq<Member>, i: nat, taken: bool, k: nat): Error
    requires k <= i < |ms|
  {
    var m := ms[i];
    if !FourSlots(m.slot) then InvalidSlot(i)
    else if taken then DuplicateSlot(m.slot)
    else if !Hex64(m.id) then MalformedId(m.slot)
    else if verify(m.json) != Some(m.id) then NotVerified(m.slot)
    else DuplicateId(m.slot, ms[k].slot)
  }

  /** Composition succeeds exactly on a non-empty list that fits. Otherwise it reports the first member that does not fit
      beside those before it. */
  lemma ComposedPlainly(verify: Verifier, ms: seq<Member>)
    ensures Composed(verify, ms).Ok? <==> ms != [] && Fits(verify, ms)
    ensures Composed(verify, []) == Err(NoMembers)
    ensures forall i: nat, k: nat :: k <= i < |ms| && FirstMisfit(verify, ms, i, k) ==>
      Composed(verify, ms) == Err(Blame(verify, ms, i, SlotTaken(ms, i), k))
  {
    hide Acceptable, Fits, Blame, FirstMisfit, SlotTaken, PlaceAll;
    ComposedMeaning(verify, ms);
    FitsIs(verify, ms);
    forall i: nat, k: nat | k <= i < |ms| && FirstMisfit(verify, ms, i, k)
      ensures PlaceAll(verify, ms, |ms|) == Err(Blame(verify, ms, i, SlotTaken(ms, i), k))
    {
      MisfitStops(verify, ms, i, k);
    }
  }

  ghost predicate SlotTaken(ms: seq<Member>, i: nat)
    requires i < |ms|
  {
    exists j :: 0 <= j < i && ms[j].slot == ms[i].slot
  }

  /** The members before i fit, those up to i do not, and k is an earlier member of the same id if there is one. */
  ghost predicate FirstMisfit(verify: Verifier, ms: seq<Member>, i: nat, k: nat)
    requires k <= i < |ms|
  {
    && Fits(verify, ms[..i]) && !Fits(verify, ms[..i + 1])
    && (if k < i then ms[k].id == ms[i].id else forall j :: 0 <= j < i ==> ms[j].id != ms[i].id)
  }

  lemma MisfitStops(verify: Verifier, ms: seq<Member>, i: nat, k: nat)
    requires k <= i < |ms| && FirstMisfit(verify, ms, i, k)
    ensures PlaceAll(verify, ms, |ms|) == Err(Blame(verify, ms, i, SlotTaken(ms, i), k))
  {
    hide Acceptable, Fits, Place, Records, PlaceAll, SlotTaken, Blame;
    FitsIs(verify, ms[..i]);
    FitsIs(verify, ms[..i + 1]);
    PlaceAllMeaning(verify, ms, i);
    PlaceAllMeaning(verify, ms, i + 1);
    PlaceAllStep(verify, ms, i);
    PlaceBlames(verify, PlaceAll(verify, ms, i).value, ms, i, k);
    FirstFailure(verify, ms, i + 1);
  }

  lemma PlaceAllStep(verify: Verifier, ms: seq<Member>, i: nat)
    requires i < |ms| && PlaceAll(verify, ms, i).Ok?
    ensures PlaceAll(verify, ms, i + 1) == Place(verify, PlaceAll(verify, ms, i).value, ms[i], i)
  {
    hide Place;
  }

  lemma PlaceBlames(verify: Verifier, t: Tally, ms: seq<Member>, i: nat, k: nat)
    requires k <= i < |ms| && Records(t, ms[..i]) && Place(verify, t, ms[i], i).Err?
    requires if k < i then ms[k].id == ms[i].id else forall j :: 0 <= j < i ==> ms[j].id != ms[i].id
    ensures Place(verify, t, ms[i], i) == Err(Blame(verify, ms, i, SlotTaken(ms, i), k))
  {
    hide IsSlot, FourSlots, IsDigestText, Hex64, Records;
    SlotNames(ms[i].slot);
    DigestTextPlainly(ms[i].id);
    SlotRecorded(t, ms, i);
    IdRecorded(t, ms, i, k);
  }

  lemma SlotRecorded(t: Tally, ms: seq<Member>, i: nat)
    requires i < |ms| && Records(t, ms[..i])
    ensures ms[i].slot in t.bySlot <==> SlotTaken(ms, i)
  {
    var before := ms[..i];
    if ms[i].slot in t.bySlot {
      assert Holds(before, ms[i].slot);
      var m :| m in before && m.slot == ms[i].slot;
      var j :| 0 <= j < i && before[j] == m;
    }
    if j :| 0 <= j < i && ms[j].slot == ms[i].slot { assert before[j] in before; }
  }

  lemma IdRecorded(t: Tally, ms: seq<Member>, i: nat, k: nat)
    requires k <= i < |ms| && Records(t, ms[..i])
    requires if k < i then ms[k].id == ms[i].id else forall j :: 0 <= j < i ==> ms[j].id != ms[i].id
    ensures ms[i].id in t.seenIds <==> k < i
    ensures k < i ==> t.seenIds[ms[i].id] == ms[k].slot
  {
    var before := ms[..i];
    if k < i { assert before[k] in before; }
    if ms[i].id in t.seenIds {
      assert Names(before, ms[i].id);
      var m :| m in before && m.id == ms[i].id;
      var j :| 0 <= j < i && before[j] == m;
    }
  }

  // ---------------------------------------------------------------- the code as written

  /** `BuildComposition`, up to the reference list handed to the builder. */
  method BuildComposition(verify: Verifier, members: seq<Member>) returns (r: Result<seq<Reference>>)
    ensures r == Composed(verify, members)
  {
    hide IsSlot, IsDigestText;
    if members == [] {
      return Err(NoMembers);
    }
    var bySlot: map<string, string> := map[];
    var seenIds: map<string, string> := map[];
    var index := 0;
    while index < |members|
      invariant 0 <= index <= |members|
      invariant PlaceAll(verify, members, index) == Ok(Tally(bySlot, seenIds))
    {
      var m := members[index];
      FirstFailure(verify, members, index + 1);
      if !IsSlot(m.slot) {
        return Err(InvalidSlot(index));
      }
      if m.slot in bySlot {
        return Err(DuplicateSlot(m.slot));
      }
      if !IsDigestText(m.id) {
        return Err(MalformedId(m.slot));
      }
      if verify(m.json) != Some(m.id) {
        return Err(NotVerified(m.slot));
      }
      if m.id in seenIds {
        return Err(DuplicateId(m.slot, seenIds[m.id]));
      }
      seenIds := seenIds[m.id := m.slot];
      bySlot := bySlot[m.slot := m.id];
      index := index + 1;
    }
    var references := [];
    var k := 0;
    while k < |SLOTS|
      invariant 0 <= k <= |SLOTS|
      invariant references == InOrder(bySlot, k)
    {
      if SLOTS[k] in bySlot {
        references := references + [Reference(SLOTS[k], bySlot[SLOTS[k]])];
      }
      k := k + 1;
    }
    return Ok(references);
  }

  lemma {:induction false} FirstFailure(verify: Verifier, ms: seq<Member>, n: nat)
    requires n <= |ms|
    ensures PlaceAll(verify, ms, n).Err? ==> PlaceAll(verify, ms, |ms|) == PlaceAll(verify, ms, n)
    decreases |ms| - n
  {
    hide Place;
    if n < |ms| { FirstFailure(verify, ms, n + 1); }
  }
}
