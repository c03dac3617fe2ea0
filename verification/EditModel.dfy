/** The reference meaning of the migrator's edits: every character is either
    deleted or not, and every location holds the texts to insert in front of
    the character that starts there. */
module EditModel {
  import opened Removals
  import opened Sequences

  datatype Edit =
    | Insertion(at: nat, text: string)
    | Removal(range: CharRange)
  {
    predicate WellFormed() { Removal? ==> range.WellFormed() }
  }

  datatype Doc = Doc(deleted: set<nat>, texts: map<nat, seq<string>>) {
    function TextsAt(p: nat): seq<string> {
      if p in texts then texts[p] else []
    }

    /** Whether the characters on both sides of a location are deleted. */
    predicate Buried(p: nat) { p > 0 && p - 1 in deleted && p in deleted }
  }

  const EMPTY_DOC := Doc({}, map[])

  function TextsOutside(texts: map<nat, seq<string>>, range: CharRange): map<nat, seq<string>> {
    map p | p in texts && !range.StrictlyContains(p) :: texts[p]
  }

  function Apply(doc: Doc, e: Edit): Doc {
    match e
    case Insertion(at, text) =>
      if doc.Buried(at) then doc else doc.(texts := doc.texts[at := doc.TextsAt(at) + [text]])
    case Removal(range) =>
      Doc(doc.deleted + range.Positions(), TextsOutside(doc.texts, range))
  }

  function ApplyAll(doc: Doc, edits: seq<Edit>): Doc {
    if edits == [] then doc
    else Apply(ApplyAll(doc, edits[..|edits| - 1]), edits[|edits| - 1])
  }

  lemma {:induction false} ApplyAllSplits(doc: Doc, a: seq<Edit>, b: seq<Edit>)
    ensures ApplyAll(doc, a + b) == ApplyAll(ApplyAll(doc, a), b)
  {
    if b == [] {
      assert a + b == a;
    } else {
      ApplyAllSplits(doc, a, b[..|b| - 1]);
      assert (a + b)[..|a + b| - 1] == a + b[..|b| - 1];
    }
  }

  // ----- Which characters go -----

  function RemovedRanges(edits: seq<Edit>): seq<CharRange> {
    if edits == [] then []
    else RemovedRanges(edits[..|edits| - 1]) +
         (if edits[|edits| - 1].Removal? then [edits[|edits| - 1].range] else [])
  }

  ghost predicate DeletedBy(edits: seq<Edit>, p: nat) {
    exists i :: 0 <= i < |edits| && edits[i].Removal? && edits[i].range.Covers(p)
  }

  /** A character is deleted exactly when some removal covers it; insertions
      play no part. */
  lemma {:induction false} DeletedExactly(edits: seq<Edit>, p: nat)
    ensures p in ApplyAll(EMPTY_DOC, edits).deleted <==> DeletedBy(edits, p)
  {
    if edits != [] {
      var front, last := edits[..|edits| - 1], edits[|edits| - 1];
      DeletedExactly(front, p);
      if DeletedBy(front, p) {
        var i :| 0 <= i < |front| && front[i].Removal? && front[i].range.Covers(p);
        assert edits[i].Removal? && edits[i].range.Covers(p);
      }
      if DeletedBy(edits, p) && !(last.Removal? && last.range.Covers(p)) {
        var i :| 0 <= i < |edits| && edits[i].Removal? && edits[i].range.Covers(p);
        assert front[i] == edits[i];
      }
    }
  }

  /** The order in which ranges are removed, and whatever is inserted in
      between, has no influence on what is deleted. */
  lemma DeletionsCommute(a: seq<Edit>, b: seq<Edit>)
    requires multiset(RemovedRanges(a)) == multiset(RemovedRanges(b))
    ensures ApplyAll(EMPTY_DOC, a).deleted == ApplyAll(EMPTY_DOC, b).deleted
  {
    DeletedIsCovered(a);
    DeletedIsCovered(b);
    RearrangedCoverSame(RemovedRanges(a), RemovedRanges(b));
  }

  lemma {:induction false} DeletedIsCovered(edits: seq<Edit>)
    ensures ApplyAll(EMPTY_DOC, edits).deleted == CoveredSet(RemovedRanges(edits))
  {
    if edits != [] {
      var front, last := edits[..|edits| - 1], edits[|edits| - 1];
      DeletedIsCovered(front);
      if last.Removal? {
        CoveredSetAppend(RemovedRanges(front), last.range);
      } else {
        assert RemovedRanges(edits) == RemovedRanges(front);
      }
    }
  }

  lemma {:induction false} CoveredSetAppend(ranges: seq<CharRange>, r: CharRange)
    ensures CoveredSet(ranges + [r]) == CoveredSet(ranges) + r.Positions()
  {
    if ranges == [] {
      assert [] + [r] == [r];
    } else {
      assert (ranges + [r])[1..] == ranges[1..] + [r];
      CoveredSetAppend(ranges[1..], r);
    }
  }

  // ----- Which texts stay -----

  /** The i-th edit inserts a text that is not thrown away: its location was
      not buried when the text came, and no later single removal has the
      location strictly inside. */
  ghost predicate Survives(edits: seq<Edit>, i: nat)
    requires i < |edits| && edits[i].Insertion?
  {
    && !(edits[i].at > 0 && DeletedBy(edits[..i], edits[i].at - 1) && DeletedBy(edits[..i], edits[i].at))
    && (forall j :: i < j < |edits| && edits[j].Removal? ==> !edits[j].range.StrictlyContains(edits[i].at))
  }

  /** The surviving texts at p among the first n edits, in request order. */
  ghost function SurvivorsAt(edits: seq<Edit>, p: nat, n: nat): seq<string>
    requires n <= |edits|
  {
    if n == 0 then []
    else SurvivorsAt(edits, p, n - 1) +
         (if edits[n - 1].Insertion? && edits[n - 1].at == p && Survives(edits, n - 1)
          then [edits[n - 1].text] else [])
  }

  /** After any run of edits, the texts at a location are exactly the
      survivors, in the order they were requested. */
  lemma {:induction false} TextsAreSurvivors(edits: seq<Edit>, p: nat)
    ensures ApplyAll(EMPTY_DOC, edits).TextsAt(p) == SurvivorsAt(edits, p, |edits|)
  {
    if edits != [] {
      var n := |edits| - 1;
      var front, last := edits[..n], edits[n];
      TextsAreSurvivors(front, p);
      assert edits == front + [last];
      if last.Removal? && last.range.StrictlyContains(p) {
        NoSurvivors(edits, p, n, n);
      } else {
        SameSurvivors(front, last, p, n);
      }
      if last.Insertion? {
        assert edits[..n] == front;
        DeletedExactly(front, last.at);
        if last.at > 0 { DeletedExactly(front, last.at - 1); }
      }
    }
  }

  lemma {:induction false} NoSurvivors(edits: seq<Edit>, p: nat, j: nat, n: nat)
    requires n <= j < |edits| && edits[j].Removal? && edits[j].range.StrictlyContains(p)
    ensures SurvivorsAt(edits, p, n) == []
  {
    if n > 0 { NoSurvivors(edits, p, j, n - 1); }
  }

  lemma {:induction false} SameSurvivors(front: seq<Edit>, last: Edit, p: nat, n: nat)
    requires n <= |front| && !(last.Removal? && last.range.StrictlyContains(p))
    ensures SurvivorsAt(front + [last], p, n) == SurvivorsAt(front, p, n)
  {
    if n > 0 {
      SameSurvivors(front, last, p, n - 1);
      var edits := front + [last];
      if front[n - 1].Insertion? && front[n - 1].at == p {
        assert edits[..n - 1] == front[..n - 1];
        assert forall j :: n - 1 < j < |front| ==> edits[j] == front[j];
        assert Survives(edits, n - 1) <==> Survives(front, n - 1);
      }
    }
  }

  /** No text ends up strictly inside a range that was removed by one request,
      no matter when the text came and how ranges were merged. */
  lemma {:induction false} NothingInsideARemoval(edits: seq<Edit>, j: nat, p: nat)
    requires j < |edits| && edits[j].Removal? && edits[j].range.StrictlyContains(p)
    ensures ApplyAll(EMPTY_DOC, edits).TextsAt(p) == []
  {
    TextsAreSurvivors(edits, p);
    NoneSurviveInside(edits, j, p, |edits|);
  }

  lemma {:induction false} NoneSurviveInside(edits: seq<Edit>, j: nat, p: nat, n: nat)
    requires j < |edits| && edits[j].Removal? && edits[j].range.StrictlyContains(p)
    requires n <= |edits|
    ensures SurvivorsAt(edits, p, n) == []
  {
    if n > 0 {
      NoneSurviveInside(edits, j, p, n - 1);
      if edits[n - 1].Insertion? && edits[n - 1].at == p && n - 1 > j {
        assert edits[..n - 1][j] == edits[j];
        assert edits[j].range.Covers(p - 1) && edits[j].range.Covers(p);
        assert DeletedBy(edits[..n - 1], p - 1) && DeletedBy(edits[..n - 1], p);
      }
    }
  }

  /** Texts do survive at the seam of two removals that touch: the ranges are
      merged but no single request had the location strictly inside. */
  lemma SeamKeepsText(text: string)
    ensures var edits := [Removal(CharRange(0, 5)), Insertion(5, text), Removal(CharRange(5, 10))];
            && ApplyAll(EMPTY_DOC, edits).TextsAt(5) == [text]
            && ApplyAll(EMPTY_DOC, edits).Buried(5)
  {
    var e1, e2, e3 := Removal(CharRange(0, 5)), Insertion(5, text), Removal(CharRange(5, 10));
    var edits := [e1, e2, e3];
    assert edits[..2] == [e1, e2] && [e1, e2][..1] == [e1] && [e1][..0] == [];
    assert ApplyAll(EMPTY_DOC, [e1]) == Apply(EMPTY_DOC, e1);
    assert ApplyAll(EMPTY_DOC, [e1, e2]) == Apply(Apply(EMPTY_DOC, e1), e2);
    assert e1.range.Covers(4) && !e1.range.Covers(5) && e3.range.Covers(5);
  }

  // ----- The final text -----

  /** The text from location p on. */
  function Render(source: string, doc: Doc, p: nat): string
    requires p <= |source|
    decreases |source| - p
  {
    Concat(doc.TextsAt(p)) +
    (if p == |source| then ""
     else (if p in doc.deleted then "" else [source[p]]) + Render(source, doc, p + 1))
  }
}
