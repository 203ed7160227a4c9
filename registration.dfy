/** Course registration: the `POST /register` handler, which either rejects a request with a
    message or deducts one seat from each selected course and appends the selected ids to the
    user's list, and the `GET /my-courses` handler.

    `Decide` states the handler's effect on values (catalog, the user's list, the request);
    `Registry.Register` performs it step by step on the stored state and is proved to agree
    with it. The lemmas state what the handler promises about `Decide`. */
module Registration {
  import opened Wrappers
  import opened Models
  import opened Seqs

  /** The ceiling on the credits a user may hold, a literal in the handler. */
  const CreditCeiling := 20

  datatype Rejection =
    | UserNotFound
    | AlreadyRegistered
    | NoSeatsLeft(courseName: string)
    | CreditLimitExceeded

  /** The `msg` the handler answers with for each rejection. */
  function Message(f: Rejection): (r: string)
    ensures |r| > 0 && (r[|r| - 1] == 't' <==> f.NoSeatsLeft?)
    ensures f.NoSeatsLeft? ==> |f.courseName| < |r| && r[..|f.courseName|] == f.courseName
  {
    match f
    case UserNotFound => "User not found"
    case AlreadyRegistered => "You are already registered for these courses"
    case NoSeatsLeft(name) => name + " has no seats left"
    case CreditLimitExceeded => "Cannot select more than 20 credits"
  }

  /** Every rejection has a message of its own, so the client can tell the reasons apart. */
  lemma MessagesDistinct(f: Rejection, g: Rejection)
    requires Message(f) == Message(g)
    ensures f == g
  {
    var m := Message(f);
    if f.NoSeatsLeft? && g.NoSeatsLeft? {
      assert f.courseName == m[..|m| - |" has no seats left"|] == g.courseName;
    }
  }

  /** What a registration request comes to: the new catalog and the user's new list, or a
      rejection that changes nothing. */
  datatype Outcome =
    | Accept(catalog: map<CourseId, Course>, registered: seq<CourseId>)
    | Reject(reason: Rejection)

  // ---------------------------------------------------------------------------------------
  // The pieces of the decision

  /** The requested ids the user does not already hold, in request order. */
  function NewIds(registered: seq<CourseId>, ids: seq<CourseId>): (r: seq<CourseId>)
    ensures |r| <= |ids|
    ensures forall i :: 0 <= i < |r| ==> r[i] in ids && r[i] !in registered
    ensures forall id :: id in ids && id !in registered ==> id in r
  {
    if ids == [] then []
    else
      var last := ids[|ids| - 1];
      assert ids == ids[..|ids| - 1] + [last];
      var prefix := NewIds(registered, ids[..|ids| - 1]);
      if last in registered then prefix else prefix + [last]
  }

  /** The ids that have a course in the catalog, in order; the others are skipped. */
  function Known(catalog: map<CourseId, Course>, ids: seq<CourseId>): (r: seq<CourseId>)
    ensures |r| <= |ids|
    ensures forall i :: 0 <= i < |r| ==> r[i] in catalog && r[i] in ids
    ensures forall id :: id in ids && id in catalog ==> id in r
  {
    if ids == [] then []
    else
      var last := ids[|ids| - 1];
      assert ids == ids[..|ids| - 1] + [last];
      var prefix := Known(catalog, ids[..|ids| - 1]);
      if last in catalog then prefix + [last] else prefix
  }

  /** A course that is in the catalog with no seat left. */
  predicate Full(catalog: map<CourseId, Course>, id: CourseId)
    ensures Full(catalog, id) ==> id in catalog
  {
    id in catalog && catalog[id].seats <= 0
  }

  /** The position of the first full course in `ids`, if there is one. */
  function FirstFull(catalog: map<CourseId, Course>, ids: seq<CourseId>): (r: Option<nat>)
    ensures r.Some? ==> r.value < |ids| && Full(catalog, ids[r.value])
    ensures r.Some? ==> forall j :: 0 <= j < r.value ==> !Full(catalog, ids[j])
    ensures r.None? ==> forall j :: 0 <= j < |ids| ==> !Full(catalog, ids[j])
  {
    if ids == [] then None
    else
      match FirstFull(catalog, ids[..|ids| - 1])
      case Some(i) => Some(i)
      case None => if Full(catalog, ids[|ids| - 1]) then Some(|ids| - 1) else None
  }

  /** The sum of the credits of the courses in `ids`, counting each occurrence and skipping
      ids with no course. */
  function SumCredits(catalog: map<CourseId, Course>, ids: seq<CourseId>): (r: int)
    ensures (forall k :: k in catalog ==> catalog[k].credits >= 0) ==> r >= 0
  {
    if ids == [] then 0
    else
      var last := ids[|ids| - 1];
      SumCredits(catalog, ids[..|ids| - 1]) + (if last in catalog then catalog[last].credits else 0)
  }

  /** `ids` with every repeated occurrence removed, keeping the first. */
  function Distinct(ids: seq<CourseId>): (r: seq<CourseId>)
    ensures forall id :: id in r <==> id in ids
    ensures forall i, j :: 0 <= i < j < |r| ==> r[i] != r[j]
  {
    if ids == [] then []
    else
      var last := ids[|ids| - 1];
      assert ids == ids[..|ids| - 1] + [last];
      var prefix := Distinct(ids[..|ids| - 1]);
      if last in prefix then prefix else prefix + [last]
  }

  /** The credits of the user's current courses: the query by `$in` yields each stored course
      of the list once, however often its id occurs. */
  function CurrentCredits(catalog: map<CourseId, Course>, registered: seq<CourseId>): (r: int)
    ensures r == SumCredits(catalog, Distinct(registered))
  {
    KnownDistinct(catalog, registered);
    SumCreditsKnown(catalog, Distinct(registered));
    SumCredits(catalog, Distinct(Known(catalog, registered)))
  }

  /** The catalog after one seat is taken from every course named in `ids`. Each selected
      document is a copy read before any deduction, so an id named twice still loses one seat. */
  function Deducted(catalog: map<CourseId, Course>, ids: seq<CourseId>): (r: map<CourseId, Course>)
    ensures r.Keys == catalog.Keys
    ensures forall k :: k in catalog ==>
      && r[k].name == catalog[k].name
      && r[k].credits == catalog[k].credits
      && r[k].timeslot == catalog[k].timeslot
      && r[k].seats == catalog[k].seats - (if k in ids then 1 else 0)
  {
    map k | k in catalog :: if k in ids then catalog[k].(seats := catalog[k].seats - 1) else catalog[k]
  }

  /** The registration handler on values, its rules in the order it applies them. */
  function Decide(catalog: map<CourseId, Course>, registered: seq<CourseId>, ids: seq<CourseId>): (r: Outcome)
    ensures r.Reject? ==> !r.reason.UserNotFound?
    ensures r == Reject(AlreadyRegistered) <==> NewIds(registered, ids) == []
    ensures r.Reject? && r.reason.NoSeatsLeft? ==>
      exists id :: id in ids && id !in registered && Full(catalog, id) && r.reason.courseName == catalog[id].name
    ensures r == Reject(CreditLimitExceeded) ==>
      SumCredits(catalog, Known(catalog, NewIds(registered, ids))) + CurrentCredits(catalog, registered) > CreditCeiling
    ensures r.Accept? ==>
      && r.catalog.Keys == catalog.Keys
      && |registered| <= |r.registered|
      && r.registered[..|registered|] == registered
  {
    var lacking := NewIds(registered, ids);
    if lacking == [] then Reject(AlreadyRegistered)
    else Admit(catalog, registered, Known(catalog, lacking))
  }

  /** The rules after the first, once the courses to add are known. */
  function Admit(catalog: map<CourseId, Course>, registered: seq<CourseId>, selected: seq<CourseId>): (r: Outcome)
    requires forall i :: 0 <= i < |selected| ==> selected[i] in catalog
    ensures r.Reject? ==> r.reason.NoSeatsLeft? || r.reason == CreditLimitExceeded
    ensures r.Reject? && r.reason.NoSeatsLeft? ==>
      exists i :: 0 <= i < |selected| && Full(catalog, selected[i]) && r.reason.courseName == catalog[selected[i]].name
    ensures r == Reject(CreditLimitExceeded) ==>
      SumCredits(catalog, selected) + CurrentCredits(catalog, registered) > CreditCeiling
    ensures r.Accept? ==>
      && (forall i :: 0 <= i < |selected| ==> catalog[selected[i]].seats > 0)
      && SumCredits(catalog, selected) + CurrentCredits(catalog, registered) <= CreditCeiling
  {
    match FirstFull(catalog, selected)
    case Some(i) => Reject(NoSeatsLeft(catalog[selected[i]].name))
    case None =>
      if SumCredits(catalog, selected) + CurrentCredits(catalog, registered) > CreditCeiling then
        Reject(CreditLimitExceeded)
      else
        Accept(Deducted(catalog, selected), registered + selected)
  }

  // ---------------------------------------------------------------------------------------
  // Facts about the pieces

  lemma NewIdsSnoc(registered: seq<CourseId>, s: seq<CourseId>, x: CourseId)
    ensures NewIds(registered, s + [x]) == NewIds(registered, s) + (if x in registered then [] else [x])
  {
    assert (s + [x])[..|s|] == s;
  }

  lemma {:induction false} NewIdsAppend(registered: seq<CourseId>, a: seq<CourseId>, b: seq<CourseId>)
    ensures NewIds(registered, a + b) == NewIds(registered, a) + NewIds(registered, b)
    decreases |b|
  {
    if b == [] {
      assert a + b == a;
    } else {
      var b', x := b[..|b| - 1], b[|b| - 1];
      assert b == b' + [x];
      assert a + b == (a + b') + [x];
      NewIdsSnoc(registered, a + b', x);
      NewIdsSnoc(registered, b', x);
      NewIdsAppend(registered, a, b');
    }
  }

  lemma KnownSnoc(catalog: map<CourseId, Course>, s: seq<CourseId>, x: CourseId)
    ensures Known(catalog, s + [x]) == Known(catalog, s) + (if x in catalog then [x] else [])
  {
    assert (s + [x])[..|s|] == s;
  }

  lemma {:induction false} KnownAppend(catalog: map<CourseId, Course>, a: seq<CourseId>, b: seq<CourseId>)
    ensures Known(catalog, a + b) == Known(catalog, a) + Known(catalog, b)
    decreases |b|
  {
    if b == [] {
      assert a + b == a;
    } else {
      var b', x := b[..|b| - 1], b[|b| - 1];
      assert b == b' + [x];
      assert a + b == (a + b') + [x];
      KnownSnoc(catalog, a + b', x);
      KnownSnoc(catalog, b', x);
      KnownAppend(catalog, a, b');
      ConcatAssoc(Known(catalog, a), Known(catalog, b'), if x in catalog then [x] else []);
    }
  }

  /** Skipping unknown ids and dropping repeats can be done in either order. */
  lemma {:induction false} KnownDistinct(catalog: map<CourseId, Course>, ids: seq<CourseId>)
    ensures Distinct(Known(catalog, ids)) == Known(catalog, Distinct(ids))
    decreases |ids|
  {
    if ids != [] {
      var p, x := ids[..|ids| - 1], ids[|ids| - 1];
      assert ids == p + [x];
      KnownDistinct(catalog, p);
      KnownSnoc(catalog, p, x);
      if x in catalog {
        var kp := Known(catalog, p);
        assert (kp + [x])[..|kp|] == kp;
        assert x in kp <==> x in Distinct(p);
        if x !in Distinct(p) {
          KnownSnoc(catalog, Distinct(p), x);
        }
      } else if x !in Distinct(p) {
        KnownSnoc(catalog, Distinct(p), x);
      }
    }
  }

  /** Ids with no course add nothing to a sum. */
  lemma {:induction false} SumCreditsKnown(catalog: map<CourseId, Course>, ids: seq<CourseId>)
    ensures SumCredits(catalog, Known(catalog, ids)) == SumCredits(catalog, ids)
    decreases |ids|
  {
    if ids != [] {
      var p, x := ids[..|ids| - 1], ids[|ids| - 1];
      SumCreditsKnown(catalog, p);
      if x in catalog {
        var kp := Known(catalog, p);
        assert (kp + [x])[..|kp|] == kp;
      }
    }
  }

  lemma {:induction false} SumCreditsAppend(catalog: map<CourseId, Course>, a: seq<CourseId>, b: seq<CourseId>)
    ensures SumCredits(catalog, a + b) == SumCredits(catalog, a) + SumCredits(catalog, b)
    decreases |b|
  {
    if b == [] {
      assert a + b == a;
    } else {
      var b' := b[..|b| - 1];
      assert (a + b)[..|a + b| - 1] == a + b';
      SumCreditsAppend(catalog, a, b');
    }
  }

  /** A full course right after a stretch with none is the first full course. */
  lemma FirstFullAfter(catalog: map<CourseId, Course>, s: seq<CourseId>, t: seq<CourseId>)
    requires FirstFull(catalog, s) == None
    requires t != [] && Full(catalog, t[0])
    ensures FirstFull(catalog, s + t) == Some(|s|)
  {
    assert (s + t)[|s|] == t[0];
    assert forall j :: 0 <= j < |s| ==> (s + t)[j] == s[j];
  }

  /** The courses of a sequence split at one of its known ids. */
  lemma KnownSplitAt(catalog: map<CourseId, Course>, s: seq<CourseId>, i: nat)
    requires i < |s| && s[i] in catalog
    ensures Known(catalog, s) == Known(catalog, s[..i]) + ([s[i]] + Known(catalog, s[i + 1..]))
  {
    var a, x, b := s[..i], s[i], s[i + 1..];
    assert s == a + [x] + b;
    KnownAppend(catalog, a + [x], b);
    KnownAppend(catalog, a, [x]);
    KnownSingle(catalog, x);
  }

  lemma KnownSingle(catalog: map<CourseId, Course>, x: CourseId)
    ensures Known(catalog, [x]) == if x in catalog then [x] else []
  {
    assert [x][..0] == [];
  }

  /** No known id, no courses. */
  lemma {:induction false} KnownNone(catalog: map<CourseId, Course>, ids: seq<CourseId>)
    requires forall id :: id in ids ==> id !in catalog
    ensures Known(catalog, ids) == []
    decreases |ids|
  {
    if ids != [] {
      KnownNone(catalog, ids[..|ids| - 1]);
    }
  }

  /** Reading one more id of the request in the selection loop. */
  lemma SelectStep(catalog: map<CourseId, Course>, s: seq<CourseId>, i: nat)
    requires i < |s|
    ensures Known(catalog, s[..i + 1]) == Known(catalog, s[..i]) + (if s[i] in catalog then [s[i]] else [])
  {
    assert s[..i + 1][..i] == s[..i];
  }

  /** Adding a course with seats to a selection with none full. */
  lemma SelectAdd(catalog: map<CourseId, Course>, selected: seq<CourseId>, id: CourseId)
    requires FirstFull(catalog, selected) == None
    requires id in catalog && catalog[id].seats > 0
    ensures FirstFull(catalog, selected + [id]) == None
    ensures SumCredits(catalog, selected + [id]) == SumCredits(catalog, selected) + catalog[id].credits
  {
    assert (selected + [id])[..|selected|] == selected;
  }

  /** Taking one more seat is an update of the one entry. */
  lemma DeductedStep(catalog: map<CourseId, Course>, s: seq<CourseId>, j: nat)
    requires j < |s| && s[j] in catalog
    ensures Deducted(catalog, s[..j + 1])
         == Deducted(catalog, s[..j])[s[j] := catalog[s[j]].(seats := catalog[s[j]].seats - 1)]
  {
    var id := s[j];
    assert s[..j + 1] == s[..j] + [id];
    var lhs := Deducted(catalog, s[..j + 1]);
    var rhs := Deducted(catalog, s[..j])[id := catalog[id].(seats := catalog[id].seats - 1)];
    assert lhs.Keys == rhs.Keys;
    forall k | k in lhs ensures lhs[k] == rhs[k] {
      assert k in s[..j + 1] <==> k in s[..j] || k == id;
    }
  }

  /** Only credits and membership matter to a sum: deducting seats leaves it alone. */
  lemma {:induction false} SumCreditsDeducted(catalog: map<CourseId, Course>, sel: seq<CourseId>, ids: seq<CourseId>)
    ensures SumCredits(Deducted(catalog, sel), ids) == SumCredits(catalog, ids)
    ensures Known(Deducted(catalog, sel), ids) == Known(catalog, ids)
    decreases |ids|
  {
    if ids != [] {
      SumCreditsDeducted(catalog, sel, ids[..|ids| - 1]);
    }
  }

  lemma {:induction false} DistinctAppendDisjoint(a: seq<CourseId>, b: seq<CourseId>)
    requires forall id :: id in b ==> id !in a
    ensures Distinct(a + b) == Distinct(a) + Distinct(b)
    decreases |b|
  {
    if b == [] {
      assert a + b == a;
    } else {
      var b' := b[..|b| - 1];
      var last := b[|b| - 1];
      assert (a + b)[..|a + b| - 1] == a + b';
      assert b == b' + [last];
      DistinctAppendDisjoint(a, b');
      assert last in Distinct(a + b') <==> last in Distinct(b');
    }
  }

  /** With no course worth negative credits, dropping repeats never raises a sum. */
  lemma {:induction false} SumCreditsDistinct(catalog: map<CourseId, Course>, ids: seq<CourseId>)
    requires forall k :: k in catalog ==> catalog[k].credits >= 0
    ensures SumCredits(catalog, Distinct(ids)) <= SumCredits(catalog, ids)
    decreases |ids|
  {
    if ids != [] {
      var prefix := ids[..|ids| - 1];
      var last := ids[|ids| - 1];
      SumCreditsDistinct(catalog, prefix);
      if last !in Distinct(prefix) {
        SumCreditsAppend(catalog, Distinct(prefix), [last]);
        assert SumCredits(catalog, [last]) == if last in catalog then catalog[last].credits else 0 by {
          assert [last][..0] == [];
        }
      }
    }
  }

  // ---------------------------------------------------------------------------------------
  // What the handler promises

  /** The request is refused as already registered exactly when it names nothing the user
      lacks, an empty request included. */
  lemma AlreadyRegisteredExactly(catalog: map<CourseId, Course>, registered: seq<CourseId>, ids: seq<CourseId>)
    ensures Decide(catalog, registered, ids) == Reject(AlreadyRegistered)
        <==> forall id :: id in ids ==> id in registered
  {
    if NewIds(registered, ids) != [] {
      assert NewIds(registered, ids)[0] in ids;
    }
  }

  /** An id with no course is skipped wherever it stands in the request, as long as the
      request still names something the user lacks. */
  lemma UnknownIdSkipped(catalog: map<CourseId, Course>, registered: seq<CourseId>,
                         a: seq<CourseId>, id: CourseId, b: seq<CourseId>)
    requires id !in catalog
    requires NewIds(registered, a + b) != []
    ensures Decide(catalog, registered, a + [id] + b) == Decide(catalog, registered, a + b)
  {
    var fa, fi, fb := NewIds(registered, a), NewIds(registered, [id]), NewIds(registered, b);
    assert NewIds(registered, a + [id] + b) == fa + fi + fb by {
      NewIdsAppend(registered, a + [id], b);
      NewIdsAppend(registered, a, [id]);
    }
    assert NewIds(registered, a + b) == fa + fb by {
      NewIdsAppend(registered, a, b);
    }
    assert Known(catalog, fa + fi + fb) == Known(catalog, fa + fb) by {
      KnownAppend(catalog, fa + fi, fb);
      KnownAppend(catalog, fa, fi);
      KnownAppend(catalog, fa, fb);
      KnownNone(catalog, fi);
      assert Known(catalog, fa) + [] == Known(catalog, fa);
    }
  }

  /** A request that names only unknown courses besides ones already held succeeds without
      changing anything, provided the user's current credits are within the ceiling. */
  lemma OnlyUnknownIdsIsNoOp(catalog: map<CourseId, Course>, registered: seq<CourseId>, ids: seq<CourseId>)
    requires forall id :: id in ids ==> id in registered || id !in catalog
    requires exists id :: id in ids && id !in registered
    requires CurrentCredits(catalog, registered) <= CreditCeiling
    ensures Decide(catalog, registered, ids) == Accept(catalog, registered)
  {
    var lacking := NewIds(registered, ids);
    var id :| id in ids && id !in registered;
    assert id in lacking;
    var selected := Known(catalog, lacking);
    KnownNone(catalog, lacking);
    assert SumCredits(catalog, selected) == 0;
    assert registered + selected == registered;
    assert Deducted(catalog, selected) == catalog;
  }

  /** A full course rejects the request, naming the first full course in request order among
      the new ids, when everything before it in the request has seats or is unknown. */
  lemma NoSeatsNamesFirstFull(catalog: map<CourseId, Course>, registered: seq<CourseId>, ids: seq<CourseId>, k: nat)
    requires k < |NewIds(registered, ids)|
    requires Full(catalog, NewIds(registered, ids)[k])
    requires forall j :: 0 <= j < k ==> !Full(catalog, NewIds(registered, ids)[j])
    ensures Decide(catalog, registered, ids) == Reject(NoSeatsLeft(catalog[NewIds(registered, ids)[k]].name))
  {
    var lacking := NewIds(registered, ids);
    var before := Known(catalog, lacking[..k]);
    KnownSplitAt(catalog, lacking, k);
    assert FirstFull(catalog, before) == None by {
      forall j | 0 <= j < |before| ensures !Full(catalog, before[j]) {
        assert before[j] in lacking[..k];
      }
    }
    FirstFullAfter(catalog, before, [lacking[k]] + Known(catalog, lacking[k + 1..]));
  }

  /** On success the new courses and the user's current ones together stay within the
      ceiling. */
  lemma AcceptedWithinCeiling(catalog: map<CourseId, Course>, registered: seq<CourseId>, ids: seq<CourseId>)
    requires Decide(catalog, registered, ids).Accept?
    ensures SumCredits(catalog, Known(catalog, NewIds(registered, ids))) + CurrentCredits(catalog, registered)
        <= CreditCeiling
  {
  }

  /** On success, no course being worth negative credits, the credits of the user's new list
      (recomputed as the handler does) are within the ceiling, whatever they were before. */
  lemma AcceptedListWithinCeiling(catalog: map<CourseId, Course>, registered: seq<CourseId>, ids: seq<CourseId>)
    requires forall k :: k in catalog ==> catalog[k].credits >= 0
    requires Decide(catalog, registered, ids).Accept?
    ensures var out := Decide(catalog, registered, ids);
      CurrentCredits(out.catalog, out.registered) <= CreditCeiling
  {
    var lacking := NewIds(registered, ids);
    var selected := Known(catalog, lacking);
    var c := Deducted(catalog, selected);
    assert Decide(catalog, registered, ids) == Accept(c, registered + selected);
    var held := Known(catalog, registered);
    SumCreditsDeducted(catalog, selected, registered + selected);
    KnownAppend(catalog, registered, selected);
    KnownOfKnown(catalog, lacking);
    assert Known(c, registered + selected) == held + selected;
    forall id | id in selected ensures id !in held {
      assert id in lacking;
    }
    DistinctAppendDisjoint(held, selected);
    SumCreditsDeducted(catalog, selected, Distinct(held + selected));
    SumCreditsAppend(catalog, Distinct(held), Distinct(selected));
    SumCreditsDistinct(catalog, selected);
  }

  lemma {:induction false} KnownOfKnown(catalog: map<CourseId, Course>, ids: seq<CourseId>)
    ensures Known(catalog, Known(catalog, ids)) == Known(catalog, ids)
    decreases |ids|
  {
    if ids != [] {
      var prefix := ids[..|ids| - 1];
      var last := ids[|ids| - 1];
      KnownOfKnown(catalog, prefix);
      if last in catalog {
        KnownAppend(catalog, Known(catalog, prefix), [last]);
        assert [last][..0] == [];
      }
    }
  }

  /** On success every course keeps its name, credits and timeslot; exactly the requested
      courses the user did not hold lose one seat each, and none goes below zero. */
  lemma AcceptedSeats(catalog: map<CourseId, Course>, registered: seq<CourseId>, ids: seq<CourseId>)
    requires Decide(catalog, registered, ids).Accept?
    ensures var c := Decide(catalog, registered, ids).catalog;
      && c.Keys == catalog.Keys
      && forall k :: k in catalog ==>
           && c[k].name == catalog[k].name
           && c[k].credits == catalog[k].credits
           && c[k].timeslot == catalog[k].timeslot
           && c[k].seats == catalog[k].seats - (if k in ids && k !in registered then 1 else 0)
           && (k in ids && k !in registered ==> c[k].seats >= 0)
  {
    var lacking := NewIds(registered, ids);
    var selected := Known(catalog, lacking);
    forall k | k in catalog
      ensures k in selected <==> k in ids && k !in registered
      ensures k in selected ==> catalog[k].seats > 0
    {
      if k in selected {
        var i :| 0 <= i < |selected| && selected[i] == k;
        assert !Full(catalog, selected[i]);
      }
    }
  }

  /** On success the user's new list is the old one followed by the requested courses they
      lacked and the catalog has, in request order; nothing they held is added again. */
  lemma AcceptedList(catalog: map<CourseId, Course>, registered: seq<CourseId>, ids: seq<CourseId>)
    requires Decide(catalog, registered, ids).Accept?
    ensures var l := Decide(catalog, registered, ids).registered;
      && l == registered + Known(catalog, NewIds(registered, ids))
      && forall id :: id in l[|registered|..] <==> id in ids && id !in registered && id in catalog
  {
    var l := Decide(catalog, registered, ids).registered;
    var selected := Known(catalog, NewIds(registered, ids));
    assert l[|registered|..] == selected;
  }

  /** A course named twice in one request that the user lacks is appended twice but loses a
      single seat: each copy is saved with the same count. */
  lemma DuplicateIdDeductsOnce(catalog: map<CourseId, Course>, registered: seq<CourseId>, id: CourseId)
    requires id in catalog && id !in registered
    requires catalog[id].seats > 0
    requires 2 * catalog[id].credits + CurrentCredits(catalog, registered) <= CreditCeiling
    ensures Decide(catalog, registered, [id, id])
         == Accept(catalog[id := catalog[id].(seats := catalog[id].seats - 1)], registered + [id, id])
  {
    Twice(catalog, registered, id);
    DeductedOnly(catalog, [id, id], id);
  }

  /** The pieces of the decision for a request naming one new course twice. */
  lemma Twice(catalog: map<CourseId, Course>, registered: seq<CourseId>, id: CourseId)
    requires id in catalog && id !in registered && catalog[id].seats > 0
    ensures NewIds(registered, [id, id]) == [id, id]
    ensures Known(catalog, [id, id]) == [id, id]
    ensures SumCredits(catalog, [id, id]) == 2 * catalog[id].credits
    ensures FirstFull(catalog, [id, id]) == None
  {
    assert [id, id][..1] == [id];
    assert [id][..0] == [];
    assert SumCredits(catalog, [id]) == catalog[id].credits;
    assert FirstFull(catalog, [id]) == None;
  }

  /** Taking seats for a list that names one course only, however often, takes one seat from
      that course. */
  lemma DeductedOnly(catalog: map<CourseId, Course>, ids: seq<CourseId>, id: CourseId)
    requires id in catalog && id in ids
    requires forall i :: 0 <= i < |ids| ==> ids[i] == id
    ensures Deducted(catalog, ids) == catalog[id := catalog[id].(seats := catalog[id].seats - 1)]
  {
    var d, u := Deducted(catalog, ids), catalog[id := catalog[id].(seats := catalog[id].seats - 1)];
    forall k | k in d ensures d[k] == u[k] {
      assert k in ids <==> k == id;
    }
  }

  /** The courses a list of ids stands for: ids with no stored course are dropped, the others
      replaced by their course, in order. */
  function Resolve(catalog: map<CourseId, Course>, ids: seq<CourseId>): (r: seq<Course>)
    ensures |r| == |Known(catalog, ids)|
    ensures forall i :: 0 <= i < |r| ==> r[i] == catalog[Known(catalog, ids)[i]]
  {
    if ids == [] then []
    else
      var last := ids[|ids| - 1];
      Resolve(catalog, ids[..|ids| - 1]) + (if last in catalog then [catalog[last]] else [])
  }

  // ---------------------------------------------------------------------------------------
  // The stored state and the two handlers

  /** What the selection loop ends with: the ids of the courses found and the sum of their
      credits, or the name of the first course found with no seat left. */
  datatype Selection = Selected(ids: seq<CourseId>, credits: int) | SoldOut(name: string)

  /** The course collection and the user collection, as the handlers see them. */
  class Registry {
    var catalog: map<CourseId, Course>
    var users: map<UserId, User>

    constructor (catalog: map<CourseId, Course>, users: map<UserId, User>)
      ensures this.catalog == catalog && this.users == users
    {
      this.catalog := catalog;
      this.users := users;
    }

    /** Registers `userId` for `courseIds`; the handler taken as one atomic step. */
    method Register(userId: UserId, courseIds: seq<CourseId>) returns (r: Result<map<CourseId, Course>, string>)
      modifies this
      ensures userId !in old(users) ==>
        r == Failure(Message(UserNotFound)) && catalog == old(catalog) && users == old(users)
      ensures userId in old(users) ==>
        var user := old(users)[userId];
        var out := Decide(old(catalog), user.registeredCourses.GetOr([]), courseIds);
        && (out.Reject? ==> r == Failure(Message(out.reason)) && catalog == old(catalog) && users == old(users))
        && (out.Accept? ==>
              && r == Success(out.catalog) && catalog == out.catalog
              && users == old(users)[userId := user.(registeredCourses := Some(out.registered))])
    {
      if userId !in users {
        return Failure(Message(UserNotFound));
      }
      var user := users[userId];
      var registered := user.registeredCourses.GetOr([]);

      var newIds := NewIds(registered, courseIds);
      if |newIds| == 0 {
        assert Decide(catalog, registered, courseIds) == Reject(AlreadyRegistered);
        return Failure(Message(AlreadyRegistered));
      }

      var selection := SelectCourses(newIds);
      assert Decide(catalog, registered, courseIds) == Admit(catalog, registered, Known(catalog, newIds));
      if selection.SoldOut? {
        return Failure(Message(NoSeatsLeft(selection.name)));
      }
      var selected, totalCredits := selection.ids, selection.credits;

      var currentCredits := CurrentCredits(catalog, registered);
      if totalCredits + currentCredits > CreditCeiling {
        return Failure(Message(CreditLimitExceeded));
      }

      DeductSeats(selected);
      users := users[userId := user.(registeredCourses := Some(registered + selected))];
      return Success(catalog);
    }

    /** The selection loop: looks each new id up, skips the ids with no course, stops at the
        first course with no seat left, and otherwise adds up the credits of the courses found. */
    method SelectCourses(newIds: seq<CourseId>) returns (s: Selection)
      ensures var selected := Known(catalog, newIds);
        match FirstFull(catalog, selected)
        case Some(k) => s == SoldOut(catalog[selected[k]].name)
        case None => s == Selected(selected, SumCredits(catalog, selected))
    {
      var totalCredits := 0;
      var selected: seq<CourseId> := [];
      var i := 0;
      while i < |newIds|
        invariant 0 <= i <= |newIds|
        invariant selected == Known(catalog, newIds[..i])
        invariant FirstFull(catalog, selected) == None
        invariant totalCredits == SumCredits(catalog, selected)
      {
        var id := newIds[i];
        SelectStep(catalog, newIds, i);
        if id in catalog {
          var course := catalog[id];
          if course.seats <= 0 {
            KnownSplitAt(catalog, newIds, i);
            FirstFullAfter(catalog, selected, [id] + Known(catalog, newIds[i + 1..]));
            return SoldOut(course.name);
          }
          SelectAdd(catalog, selected, id);
          totalCredits := totalCredits + course.credits;
          selected := selected + [id];
        }
        i := i + 1;
      }
      assert newIds[..i] == newIds;
      return Selected(selected, totalCredits);
    }

    /** Saves each selected course with one seat fewer than the copy read while selecting. */
    method DeductSeats(selected: seq<CourseId>)
      requires forall i :: 0 <= i < |selected| ==> selected[i] in catalog
      modifies this
      ensures catalog == Deducted(old(catalog), selected) && users == old(users)
    {
      var snapshot := catalog;
      var j := 0;
      assert Deducted(snapshot, []) == snapshot;
      while j < |selected|
        invariant 0 <= j <= |selected|
        invariant catalog == Deducted(snapshot, selected[..j])
        invariant users == old(users)
      {
        var id := selected[j];
        var course := snapshot[id];
        DeductedStep(snapshot, selected, j);
        catalog := catalog[id := course.(seats := course.seats - 1)];
        j := j + 1;
      }
      assert selected[..j] == selected;
    }

    /** The stored courses of `userId`'s list, as the populated list yields them. */
    method MyCourses(userId: UserId) returns (r: Result<seq<Course>, string>)
      ensures userId !in users ==> r == Failure(Message(UserNotFound))
      ensures userId in users ==>
        r == Success(Resolve(catalog, users[userId].registeredCourses.GetOr([])))
    {
      if userId !in users {
        return Failure(Message(UserNotFound));
      }
      var ids := users[userId].registeredCourses.GetOr([]);
      return Success(Resolve(catalog, ids));
    }
  }
}
