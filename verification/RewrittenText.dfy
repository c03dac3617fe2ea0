/** What a rewriter makes of the engine's stream, against the reference document. */
module RewrittenText {
  import EditModel
  import opened Lines
  import opened Removals
  import opened RemovedLines
  import opened RewriteBuffer
  import opened RewriteCells
  import opened Rewriter
  import opened RewriterOffsets
  import opened RewriteStream
  import opened Sequences
  import opened SourceModel
  import opened Wrappers

  // ----- The cells before any removal -----

  ghost function FileCells(source: string): (cells: Cells)
    ensures |cells| == 2 * |source| + 1
    ensures forall k :: 0 <= k < |cells| ==> cells[k] == if k % 2 == 0 then "" else [source[k / 2]]
  {
    seq(2 * |source| + 1, k requires 0 <= k <= 2 * |source| => if k % 2 == 0 then "" else [source[k / 2]])
  }

  lemma {:induction false} FileTextTo(source: string, q: nat)
    requires q <= |source|
    ensures Text(FileCells(source), 0, 2 * q) == Text(FileCells(source), 0, 2 * q + 1) == source[..q]
  {
    if q > 0 {
      FileTextTo(source, q - 1);
      FileTextNext(source, q - 1);
    } else {
      FileCellAt(source, 0);
      TextNext(FileCells(source), 0);
    }
  }

  lemma {:induction false} FileTextNext(source: string, q: nat)
    requires q < |source| && Text(FileCells(source), 0, 2 * q + 1) == source[..q]
    ensures Text(FileCells(source), 0, 2 * q + 2) == Text(FileCells(source), 0, 2 * q + 3) == source[..q + 1]
  {
    var cells := FileCells(source);
    FileCellAt(source, q);
    FileCellAt(source, q + 1);
    TextNext(cells, 2 * q + 1);
    TextNext(cells, 2 * q + 2);
    OneMoreChar(source, q);
    NothingMore(source[..q + 1]);
  }

  lemma TextNext(cells: Cells, h: nat)
    requires h < |cells|
    ensures Text(cells, 0, h + 1) == Text(cells, 0, h) + cells[h]
  {
  }

  lemma OneMoreChar(source: string, r: nat)
    requires r < |source|
    ensures source[..r + 1] == source[..r] + [source[r]]
  {
  }

  lemma {:induction false} FileText(source: string, h: nat)
    requires h <= 2 * |source| + 1
    ensures Text(FileCells(source), 0, h) == source[..h / 2]
  {
    HalfOf(h);
    FileTextTo(source, h / 2);
  }

  lemma HalfOf(h: nat)
    ensures h == 2 * (h / 2) || h == 2 * (h / 2) + 1
  {
  }

  lemma FileCellAt(source: string, p: nat)
    requires p <= |source|
    ensures FileCells(source)[2 * p] == ""
    ensures p < |source| ==> FileCells(source)[2 * p + 1] == [source[p]]
  {
    Halves(p);
  }

  lemma FileIsFound(source: string)
    ensures Whole(FileCells(source)) == source && FindsFrom(FileCells(source), [], 0)
  {
    FileText(source, 2 * |source| + 1);
    assert source[..|source|] == source;
    forall h: nat | h <= 2 * |source| + 1 ensures Finds(FileCells(source), [], h) {
      FileText(source, h);
    }
  }

  ghost predicate AllPut(source: string, calls: seq<Call>) {
    forall c :: c in calls ==> c.Put? && c.at <= |source|
  }

  /** The cells after insertions. */
  ghost function PutAll(source: string, calls: seq<Call>): (cells: Cells)
    requires AllPut(source, calls)
    ensures |cells| == 2 * |source| + 1
  {
    if calls == [] then FileCells(source)
    else
      var last := calls[|calls| - 1];
      PutAt(PutAll(source, calls[..|calls| - 1]), 2 * last.at, last.text, last.after)
  }

  /** No insertion is put anywhere but where it belongs. */
  lemma {:induction false} PutsRun(source: string, calls: seq<Call>)
    requires AllPut(source, calls)
    ensures var b := AfterAll(Buf(source, []), calls);
            b.Some? && b.value.text == Whole(PutAll(source, calls)) && FindsFrom(PutAll(source, calls), b.value.deltas, 0)
  {
    if calls == [] {
      FileIsFound(source);
    } else {
      var front, last := calls[..|calls| - 1], calls[|calls| - 1];
      PutsRun(source, front);
      assert calls == front + [last];
      AfterAllSplits(Buf(source, []), front, [last]);
      var b := AfterAll(Buf(source, []), front).value;
      PutStep(b, PutAll(source, front), last.at, last.text, last.after);
      assert [last][1..] == [];
      assert AfterAll(b, [last]) == After(b, last);
    }
  }

  /** What insertions put in front of, and behind, what is at an offset. */
  function InFront(calls: seq<Call>, p: nat): string {
    if calls == [] then ""
    else
      var last := calls[|calls| - 1];
      (if last.Put? && last.at == p && !last.after then last.text else "") + InFront(calls[..|calls| - 1], p)
  }

  function Behind(calls: seq<Call>, p: nat): string {
    if calls == [] then ""
    else
      var last := calls[|calls| - 1];
      Behind(calls[..|calls| - 1], p) + (if last.Put? && last.at == p && last.after then last.text else "")
  }

  lemma {:induction false} CellOfPuts(source: string, calls: seq<Call>, p: nat)
    requires AllPut(source, calls) && p <= |source|
    ensures PutAll(source, calls)[2 * p] == InFront(calls, p) + Behind(calls, p)
    ensures p < |source| ==> PutAll(source, calls)[2 * p + 1] == [source[p]]
  {
    if calls == [] {
      Halves(p);
      assert "" + "" == "";
    } else {
      var front, last := calls[..|calls| - 1], calls[|calls| - 1];
      CellOfPuts(source, front, p);
      var a, b := InFront(front, p), Behind(front, p);
      assert last.text + (a + b) == last.text + a + b && (a + b) + last.text == a + (b + last.text);
      assert "" + a == a && b + "" == b;
    }
  }

  lemma OneMoreCall(calls: seq<Call>, c: Call, p: nat)
    ensures InFront(calls + [c], p) == (if c.Put? && c.at == p && !c.after then c.text else "") + InFront(calls, p)
    ensures Behind(calls + [c], p) == Behind(calls, p) + if c.Put? && c.at == p && c.after then c.text else ""
  {
    assert (calls + [c])[..|calls|] == calls;
  }

  lemma {:induction false} InFrontConcat(x: seq<Call>, y: seq<Call>, p: nat)
    ensures InFront(x + y, p) == InFront(y, p) + InFront(x, p)
  {
    if y == [] {
      assert x + y == x && "" + InFront(x, p) == InFront(x, p);
    } else {
      var front, last := y[..|y| - 1], y[|y| - 1];
      InFrontConcat(x, front, p);
      LastApart(y);
      Regroup(x, front, [last]);
      OneMoreCall(x + front, last, p);
      OneMoreCall(front, last, p);
      Regroup(if last.Put? && last.at == p && !last.after then last.text else "", InFront(front, p), InFront(x, p));
    }
  }

  lemma {:induction false} BehindConcat(x: seq<Call>, y: seq<Call>, p: nat)
    ensures Behind(x + y, p) == Behind(x, p) + Behind(y, p)
  {
    if y == [] {
      assert x + y == x && Behind(x, p) + "" == Behind(x, p);
    } else {
      var front, last := y[..|y| - 1], y[|y| - 1];
      BehindConcat(x, front, p);
      LastApart(y);
      Regroup(x, front, [last]);
      OneMoreCall(x + front, last, p);
      OneMoreCall(front, last, p);
      Regroup(Behind(x, p), Behind(front, p), if last.Put? && last.at == p && last.after then last.text else "");
    }
  }

  // ----- The calls for a stream without removals -----

  ghost predicate Insertions(source: string, stream: seq<Rewrite>) {
    AllInFile(source, stream) && forall i :: 0 <= i < |stream| ==> !stream[i].RemoveText?
  }

  function AllIndented(texts: seq<string>, space: string): seq<string> {
    seq(|texts|, i requires 0 <= i < |texts| => Indented(texts[i], space))
  }

  lemma {:induction false} LinesArePuts(source: string, offs: nat, last: nat, startSpace: string, indent: string, p: nat)
    requires offs <= |source|
    ensures AllPut(source, IndentLines(source, offs, last, startSpace, indent))
    ensures Behind(IndentLines(source, offs, last, startSpace, indent), p) == ""
    decreases |source| - offs
  {
    if offs <= last {
      var here := if startSpace <= Indentation(source, offs) then [Put(offs, indent, false)] else [];
      var next := NextLine(source, offs);
      var rest := if next <= offs then [] else IndentLines(source, next, last, startSpace, indent);
      if next > offs { LinesArePuts(source, next, last, startSpace, indent, p); }
      BehindConcat(here, rest, p);
      assert here != [] ==> here[..|here| - 1] == [];
    }
  }

  lemma CallsArePuts(source: string, r: Rewrite, p: nat)
    requires InFile(source, r) && !r.RemoveText?
    ensures AllPut(source, CallsOf(source, r))
    ensures r.InsertText? ==> InFront(CallsOf(source, r), p) == ""
    ensures Behind(CallsOf(source, r), p) ==
            if r.InsertText? && r.at == p then Indented(r.text, Indentation(source, r.at)) else ""
  {
    match r
    case InsertText(at, text) =>
      var calls := CallsOf(source, r);
      assert calls[..0] == [];
      assert "" + Indented(text, Indentation(source, at)) == Indented(text, Indentation(source, at));
    case Reindent(range, parent) =>
      LinesArePuts(source, LineStart(source, range.begin), LineStart(source, range.end), Indentation(source, range.begin),
                   IndentOf(source, range.begin, parent.offset), p);
  }

  lemma {:induction false} ConcatAppended(texts: seq<string>, t: string)
    ensures Concat(texts + [t]) == Concat(texts) + t
  {
    if texts == [] {
      assert [] + [t] == [t];
      assert Concat([t]) == t + Concat([]);
    } else {
      assert (texts + [t])[1..] == texts[1..] + [t];
      ConcatAppended(texts[1..], t);
    }
  }

  lemma OneMoreIndented(texts: seq<string>, t: string, space: string)
    ensures Concat(AllIndented(texts + [t], space)) == Concat(AllIndented(texts, space)) + Indented(t, space)
  {
    assert AllIndented(texts + [t], space) == AllIndented(texts, space) + [Indented(t, space)];
    ConcatAppended(AllIndented(texts, space), Indented(t, space));
  }

  lemma OneMoreText(stream: seq<Rewrite>, r: Rewrite, p: nat)
    ensures TextsIn(stream + [r], p) == if r.InsertText? && r.at == p then TextsIn(stream, p) + [r.text] else TextsIn(stream, p)
  {
    TextsInConcat(stream, [r], p);
    assert [r][1..] == [];
  }

  /** What one more rewrite puts behind. */
  lemma OneMoreBehind(source: string, stream: seq<Rewrite>, r: Rewrite, p: nat)
    requires InFile(source, r) && !r.RemoveText? && p <= |source|
    ensures var space := Indentation(source, p);
            Concat(AllIndented(TextsIn(stream + [r], p), space)) ==
            Concat(AllIndented(TextsIn(stream, p), space)) + Behind(CallsOf(source, r), p)
  {
    OneMoreText(stream, r, p);
    CallsArePuts(source, r, p);
    if r.InsertText? && r.at == p { OneMoreIndented(TextsIn(stream, p), r.text, Indentation(source, p)); }
  }

  lemma {:induction false} InsertionsArePuts(source: string, stream: seq<Rewrite>)
    requires Insertions(source, stream)
    ensures AllPut(source, CallsOfAll(source, stream))
  {
    if stream != [] {
      InsertionsArePuts(source, stream[..|stream| - 1]);
      CallsArePuts(source, stream[|stream| - 1], 0);
    }
  }

  lemma BehindNext(source: string, front: seq<Rewrite>, last: Rewrite, p: nat)
    requires AllInFile(source, front) && InFile(source, last)
    ensures Behind(CallsOfAll(source, front + [last]), p) ==
            Behind(CallsOfAll(source, front), p) + Behind(CallsOf(source, last), p)
  {
    CallsAppended(source, front, last);
    BehindConcat(CallsOfAll(source, front), CallsOf(source, last), p);
  }

  /** Behind come the inserted texts, indented like the line they are in. */
  lemma {:induction false} CallsOfInsertions(source: string, stream: seq<Rewrite>, p: nat)
    requires Insertions(source, stream) && p <= |source|
    ensures Behind(CallsOfAll(source, stream), p) == Concat(AllIndented(TextsIn(stream, p), Indentation(source, p)))
  {
    if stream != [] {
      var front, last := stream[..|stream| - 1], stream[|stream| - 1];
      CallsOfInsertions(source, front, p);
      OneMoreBehind(source, front, last, p);
      BehindNext(source, front, last, p);
      LastApart(stream);
    }
  }

  lemma {:induction false} NothingInFront(source: string, stream: seq<Rewrite>, p: nat)
    requires AllInFile(source, stream) && forall i :: 0 <= i < |stream| ==> stream[i].InsertText?
    ensures InFront(CallsOfAll(source, stream), p) == ""
  {
    if stream != [] {
      var front, last := stream[..|stream| - 1], stream[|stream| - 1];
      NothingInFront(source, front, p);
      CallsArePuts(source, last, p);
      InFrontConcat(CallsOfAll(source, front), CallsOf(source, last), p);
    }
  }

  // ----- Which lines are indented -----

  /** In front of the lines from the one at `offs` to the one at `last` that start
      with the given white space, and nowhere else, the indentation is put. */
  lemma {:induction false} LinesIndented(source: string, offs: nat, last: nat, startSpace: string, indent: string, p: nat)
    requires offs <= |source| && p <= |source| && (offs == 0 || source[offs - 1] == '\n')
    ensures InFront(IndentLines(source, offs, last, startSpace, indent), p) ==
            if LineIndented(source, offs, last, startSpace, p) then indent else ""
    decreases |source| - offs
  {
    if offs <= last {
      var next := NextLine(source, offs);
      var here := if startSpace <= Indentation(source, offs) then [Put(offs, indent, false)] else [];
      if next <= offs {
        LastLineIndented(source, offs, last, startSpace, indent, p, here);
        NothingMore(here);
      } else {
        LinesIndented(source, next, last, startSpace, indent, p);
        NextLineIndented(source, offs, last, startSpace, indent, p, here, IndentLines(source, next, last, startSpace, indent));
      }
    }
  }

  /** A line of the range starts at p, with the white space of the first line. */
  predicate LineIndented(source: string, offs: nat, last: nat, startSpace: string, p: nat)
    requires p <= |source|
  {
    (p == 0 || source[p - 1] == '\n') && offs <= p <= last && startSpace <= Indentation(source, p)
  }

  lemma {:induction false} LastLineIndented(source: string, offs: nat, last: nat, startSpace: string, indent: string, p: nat, here: seq<Call>)
    requires offs <= last && offs <= |source| && p <= |source| && (offs == 0 || source[offs - 1] == '\n')
    requires NextLine(source, offs) <= offs
    requires here == if startSpace <= Indentation(source, offs) then [Put(offs, indent, false)] else []
    ensures InFront(here, p) == if LineIndented(source, offs, last, startSpace, p) then indent else ""
  {
    OneInFront(Put(offs, indent, false), p);
  }

  lemma {:induction false} NextLineIndented(source: string, offs: nat, last: nat, startSpace: string, indent: string, p: nat,
                                            here: seq<Call>, rest: seq<Call>)
    requires offs <= last && offs <= |source| && p <= |source| && (offs == 0 || source[offs - 1] == '\n')
    requires NextLine(source, offs) > offs
    requires here == if startSpace <= Indentation(source, offs) then [Put(offs, indent, false)] else []
    requires InFront(rest, p) == if LineIndented(source, NextLine(source, offs), last, startSpace, p) then indent else ""
    ensures InFront(here + rest, p) == if LineIndented(source, offs, last, startSpace, p) then indent else ""
  {
    OnlyLineStarts(source, offs, last, startSpace, p);
    InFrontConcat(here, rest, p);
    OneInFront(Put(offs, indent, false), p);
    NothingMore(InFront(rest, p));
    NothingMore(InFront(here, p));
  }

  /** No line starts between one and the next. */
  lemma {:induction false} OnlyLineStarts(source: string, offs: nat, last: nat, startSpace: string, p: nat)
    requires offs <= last && offs <= |source| && p <= |source| && (offs == 0 || source[offs - 1] == '\n')
    requires NextLine(source, offs) > offs
    ensures LineIndented(source, offs, last, startSpace, p) <==>
            if p == offs then startSpace <= Indentation(source, offs)
            else LineIndented(source, NextLine(source, offs), last, startSpace, p)
  {
    var next := NextLine(source, offs);
    if offs < p < next { assert source[p - 1] != '\n'; }
  }

  lemma {:induction false} OneInFront(c: Call, p: nat)
    ensures InFront([c], p) == if c.Put? && c.at == p && !c.after then c.text else ""
  {
    OneMoreCall([], c, p);
    assert [] + [c] == [c];
    if c.Put? { NothingMore(c.text); }
  }

  /** Re-indenting puts in front of an offset what the first line of the range is
      indented by more than the line of the parent, if the offset starts one of the
      lines of the range and that line starts with the white space of the first;
      otherwise it puts nothing there. */
  lemma ReindentsLines(source: string, range: CharRange, parent: nat, p: nat)
    requires InFile(source, Reindent(range, File(parent))) && p <= |source|
    ensures var outer, first := Indentation(source, parent), Indentation(source, range.begin);
            var indent := InFront(CallsOf(source, Reindent(range, File(parent))), p);
            if range.begin <= range.end && outer <= first
               && (p == 0 || source[p - 1] == '\n') && LineStart(source, range.begin) <= p <= LineStart(source, range.end)
               && first <= Indentation(source, p)
            then outer + indent == first else indent == ""
  {
    var outer, first := Indentation(source, parent), Indentation(source, range.begin);
    var indent := IndentOf(source, range.begin, parent);
    LinesIndented(source, LineStart(source, range.begin), LineStart(source, range.end), first, indent, p);
    assert outer <= first ==> outer + first[|outer|..] == first;
  }

  // ----- The document with indentation -----

  ghost predicate IndentsInFile(source: string, indents: seq<(CharRange, Loc)>) {
    AllInFile(source, ReindentStream(indents))
  }

  /** What re-indenting puts in front of an offset. */
  ghost function IndentAt(source: string, indents: seq<(CharRange, Loc)>, p: nat): string
    requires IndentsInFile(source, indents)
  {
    InFront(CallsOfAll(source, ReindentStream(indents)), p)
  }

  /** The reference document with the lines of its texts indented like the line
      they are put in, and with the lines of the ranges indented. */
  ghost function IndentedDoc(source: string, doc: EditModel.Doc, indents: seq<(CharRange, Loc)>): EditModel.Doc
    requires IndentsInFile(source, indents)
  {
    EditModel.Doc(doc.deleted, map p: nat | p <= |source| ::
      [IndentAt(source, indents, p)] + AllIndented(doc.TextsAt(p), Indentation(source, p)))
  }

  /** The cells when removals take characters only, never texts. */
  ghost function DocCells(source: string, doc: EditModel.Doc): (cells: Cells)
    ensures |cells| == 2 * |source| + 1
    ensures forall k :: 0 <= k < |cells| ==> cells[k] == DocCell(source, doc, k)
  {
    seq(2 * |source| + 1, k requires 0 <= k <= 2 * |source| => DocCell(source, doc, k))
  }

  ghost function DocCell(source: string, doc: EditModel.Doc, k: nat): string
    requires k <= 2 * |source|
  {
    if k % 2 == 0 then Concat(doc.TextsAt(k / 2)) else if k / 2 in doc.deleted then "" else [source[k / 2]]
  }

  lemma DocCellAt(source: string, doc: EditModel.Doc, p: nat)
    requires p <= |source|
    ensures DocCells(source, doc)[2 * p] == Concat(doc.TextsAt(p))
    ensures p < |source| ==> DocCells(source, doc)[2 * p + 1] == if p in doc.deleted then "" else [source[p]]
  {
    Halves(p);
    assert DocCell(source, doc, 2 * p) == Concat(doc.TextsAt(p));
    if p < |source| {
      assert DocCell(source, doc, 2 * p + 1) == if p in doc.deleted then "" else [source[p]];
    }
  }

  /** The two cells of offset p hold what is rendered there. */
  ghost predicate Renders(source: string, doc: EditModel.Doc, cells: Cells, p: nat)
    requires p <= |source| && |cells| == 2 * |source| + 1
  {
    && cells[2 * p] == Concat(doc.TextsAt(p))
    && (p < |source| ==> cells[2 * p + 1] == if p in doc.deleted then "" else [source[p]])
  }

  lemma {:induction false} RenderIsCells(source: string, doc: EditModel.Doc, cells: Cells, p: nat, i: nat)
    requires p <= |source| && |cells| == 2 * |source| + 1 && i == 2 * p
    requires forall q: nat :: q <= |source| ==> Renders(source, doc, cells, q)
    ensures EditModel.Render(source, doc, p) == Text(cells, i, |cells|)
    decreases |source| - p
  {
    assert Renders(source, doc, cells, p);
    TextFirst(cells, i, |cells|);
    if p == |source| {
      assert Text(cells, i + 1, |cells|) == "";
    } else {
      TextFirst(cells, i + 1, |cells|);
      RenderIsCells(source, doc, cells, p + 1, i + 2);
      assert EditModel.Render(source, doc, p) == cells[i] + (cells[i + 1] + EditModel.Render(source, doc, p + 1));
    }
  }

  lemma RenderIsText(source: string, doc: EditModel.Doc)
    ensures EditModel.Render(source, doc, 0) == Whole(DocCells(source, doc))
  {
    forall p: nat | p <= |source| ensures Renders(source, doc, DocCells(source, doc), p) {
      DocCellAt(source, doc, p);
    }
    RenderIsCells(source, doc, DocCells(source, doc), 0, 0);
  }

  // ----- What indenting changes -----

  /** Nothing is indented at an offset. */
  ghost predicate NotIndented(source: string, doc: EditModel.Doc, indents: seq<(CharRange, Loc)>, p: nat)
    requires IndentsInFile(source, indents) && p <= |source|
  {
    IndentAt(source, indents, p) == "" &&
    (Indentation(source, p) == "" || forall t :: t in doc.TextsAt(p) ==> '\n' !in t)
  }

  lemma {:induction false} IndentedTexts(texts: seq<string>, space: string)
    ensures |Concat(AllIndented(texts, space))| >= |Concat(texts)|
    ensures |Concat(AllIndented(texts, space))| == |Concat(texts)| <==> space == "" || forall t :: t in texts ==> '\n' !in t
    ensures (space == "" || forall t :: t in texts ==> '\n' !in t) ==> Concat(AllIndented(texts, space)) == Concat(texts)
  {
    if texts != [] {
      IndentedTexts(texts[1..], space);
      IndentingAdds(texts[0], space);
      assert AllIndented(texts, space)[1..] == AllIndented(texts[1..], space);
      assert (forall t :: t in texts ==> '\n' !in t) <==> '\n' !in texts[0] && forall t :: t in texts[1..] ==> '\n' !in t by {
        assert texts == [texts[0]] + texts[1..];
      }
    }
  }

  lemma IndentedTextsAt(source: string, doc: EditModel.Doc, indents: seq<(CharRange, Loc)>, p: nat)
    requires IndentsInFile(source, indents) && p <= |source|
    ensures Concat(IndentedDoc(source, doc, indents).TextsAt(p)) ==
            IndentAt(source, indents, p) + Concat(AllIndented(doc.TextsAt(p), Indentation(source, p)))
  {
    var a, texts := IndentAt(source, indents, p), AllIndented(doc.TextsAt(p), Indentation(source, p));
    assert ([a] + texts)[1..] == texts;
  }

  lemma IndentedCell(source: string, doc: EditModel.Doc, indents: seq<(CharRange, Loc)>, p: nat)
    requires IndentsInFile(source, indents) && p <= |source|
    ensures var here, now := Concat(doc.TextsAt(p)), Concat(IndentedDoc(source, doc, indents).TextsAt(p));
            if NotIndented(source, doc, indents, p) then now == here else |here| < |now|
  {
    IndentedTextsAt(source, doc, indents, p);
    IndentedTexts(doc.TextsAt(p), Indentation(source, p));
    assert "" + Concat(doc.TextsAt(p)) == Concat(doc.TextsAt(p));
  }

  lemma IndentedCellAt(source: string, doc: EditModel.Doc, indents: seq<(CharRange, Loc)>, k: nat)
    requires IndentsInFile(source, indents) && k <= 2 * |source|
    ensures var a, b := DocCells(source, doc)[k], DocCells(source, IndentedDoc(source, doc, indents))[k];
            && (a == b || |a| < |b|)
            && (a == b <==> (k % 2 == 0 ==> NotIndented(source, doc, indents, k / 2)))
  {
    if k % 2 == 0 { IndentedCell(source, doc, indents, k / 2); }
  }

  lemma SameCells(source: string, doc: EditModel.Doc, indents: seq<(CharRange, Loc)>)
    requires IndentsInFile(source, indents)
    ensures DocCells(source, doc) == DocCells(source, IndentedDoc(source, doc, indents)) <==>
            forall p: nat :: p <= |source| ==> NotIndented(source, doc, indents, p)
  {
    var a, b := DocCells(source, doc), DocCells(source, IndentedDoc(source, doc, indents));
    if a == b {
      forall p: nat | p <= |source| ensures NotIndented(source, doc, indents, p) {
        Halves(p);
        IndentedCellAt(source, doc, indents, 2 * p);
      }
    }
    if forall p: nat :: p <= |source| ==> NotIndented(source, doc, indents, p) {
      forall k | 0 <= k < |a| ensures a[k] == b[k] {
        IndentedCellAt(source, doc, indents, k);
      }
    }
  }

  /** With indentation the text is that of the reference document exactly if
      nothing is indented. */
  lemma IndentationShows(source: string, doc: EditModel.Doc, indents: seq<(CharRange, Loc)>)
    requires IndentsInFile(source, indents)
    ensures EditModel.Render(source, IndentedDoc(source, doc, indents), 0) == EditModel.Render(source, doc, 0) <==>
            forall p: nat :: p <= |source| ==> NotIndented(source, doc, indents, p)
  {
    var a, b := DocCells(source, doc), DocCells(source, IndentedDoc(source, doc, indents));
    RenderIsText(source, doc);
    RenderIsText(source, IndentedDoc(source, doc, indents));
    forall k | 0 <= k < |a| ensures a[k] == b[k] || |a[k]| < |b[k]| {
      IndentedCellAt(source, doc, indents, k);
    }
    LessText(a, b);
    SameCells(source, doc, indents);
  }

  // ----- The engine's stream -----

  /** What the engine hands over fits the file. */
  ghost predicate FitsFile(source: string, inserts: map<nat, seq<string>>, indents: seq<(CharRange, Loc)>, ranges: seq<CharRange>) {
    && GapSorted(ranges) && (forall i :: 0 <= i < |ranges| ==> ranges[i].end <= |source|)
    && (forall p :: p in inserts ==> p <= |source|) && IndentsInFile(source, indents)
  }

  ghost function Puts(inserts: map<nat, seq<string>>, indents: seq<(CharRange, Loc)>): seq<Rewrite> {
    InsertStream(inserts, inserts.Keys) + ReindentStream(indents)
  }

  lemma {:induction false} InsertedWhere(inserts: map<nat, seq<string>>, keys: set<nat>, i: nat)
    requires keys <= inserts.Keys && i < |InsertStream(inserts, keys)|
    ensures var r := InsertStream(inserts, keys)[i]; r.InsertText? && r.at in keys
    decreases |keys|
  {
    var k := Least(keys);
    var first := TextStream(k, inserts[k]);
    if i >= |first| { InsertedWhere(inserts, keys - {k}, i - |first|); }
  }

  lemma EngineInFile(source: string, inserts: map<nat, seq<string>>, indents: seq<(CharRange, Loc)>, ranges: seq<CharRange>)
    requires FitsFile(source, inserts, indents, ranges)
    ensures Insertions(source, Puts(inserts, indents))
    ensures AllInFile(source, InsertStream(inserts, inserts.Keys))
    ensures forall i :: 0 <= i < |InsertStream(inserts, inserts.Keys)| ==> InsertStream(inserts, inserts.Keys)[i].InsertText?
    ensures AllInFile(source, FullStream(inserts, indents, ranges))
    ensures AllInFile(source, RemoveStream(ranges))
  {
    var stream := InsertStream(inserts, inserts.Keys);
    forall i | 0 <= i < |stream| ensures InFile(source, stream[i]) && stream[i].InsertText? {
      InsertedWhere(inserts, inserts.Keys, i);
    }
  }

  lemma {:induction false} CallsOfRemovals(source: string, ranges: seq<CharRange>)
    requires AllInFile(source, RemoveStream(ranges))
    ensures CallsOfAll(source, RemoveStream(ranges)) == CutsOf(ranges)
  {
    if ranges != [] {
      var front, last := ranges[..|ranges| - 1], ranges[|ranges| - 1];
      assert RemoveStream(ranges) == RemoveStream(front) + [RemoveText(last)];
      assert forall i :: 0 <= i < |front| ==> RemoveStream(front)[i] == RemoveStream(ranges)[i];
      assert RemoveStream(ranges)[|front|] == RemoveText(last);
      CallsOfRemovals(source, front);
      CallsAppended(source, RemoveStream(front), RemoveText(last));
      assert CutsOf(ranges) == CutsOf(front) + [Cut(last)];
    }
  }

  /** The cells with the engine's insertions and indentations. */
  ghost function Inserted(source: string, inserts: map<nat, seq<string>>, indents: seq<(CharRange, Loc)>, ranges: seq<CharRange>): (cells: Cells)
    requires FitsFile(source, inserts, indents, ranges)
    ensures |cells| == 2 * |source| + 1 && InCells(cells, ranges)
  {
    EngineInFile(source, inserts, indents, ranges);
    InsertionsArePuts(source, Puts(inserts, indents));
    PutAll(source, CallsOfAll(source, Puts(inserts, indents)))
  }

  lemma PutsInFront(source: string, inserts: map<nat, seq<string>>, indents: seq<(CharRange, Loc)>, ranges: seq<CharRange>, p: nat)
    requires FitsFile(source, inserts, indents, ranges) && Insertions(source, Puts(inserts, indents))
    ensures InFront(CallsOfAll(source, Puts(inserts, indents)), p) == IndentAt(source, indents, p)
  {
    var a, b := InsertStream(inserts, inserts.Keys), ReindentStream(indents);
    EngineInFile(source, inserts, indents, ranges);
    CallsOfConcat(source, a, b);
    InFrontConcat(CallsOfAll(source, a), CallsOfAll(source, b), p);
    NothingInFront(source, a, p);
  }

  lemma PutsBehind(source: string, inserts: map<nat, seq<string>>, indents: seq<(CharRange, Loc)>, p: nat)
    requires Insertions(source, Puts(inserts, indents)) && p <= |source|
    ensures Behind(CallsOfAll(source, Puts(inserts, indents)), p) ==
            Concat(AllIndented(if p in inserts then inserts[p] else [], Indentation(source, p)))
  {
    CallsOfInsertions(source, Puts(inserts, indents), p);
    PutsTexts(inserts, indents, p);
  }

  /** The cells hold the texts of a document and all characters. */
  ghost predicate Holds(source: string, cells: Cells, doc: EditModel.Doc, p: nat)
    requires p <= |source| && |cells| == 2 * |source| + 1
  {
    cells[2 * p] == Concat(doc.TextsAt(p)) && (p < |source| ==> cells[2 * p + 1] == [source[p]])
  }

  ghost predicate AllHold(source: string, cells: Cells, doc: EditModel.Doc) {
    |cells| == 2 * |source| + 1 && forall p: nat :: p <= |source| ==> Holds(source, cells, doc, p)
  }

  /** The cells hold what the indented document has. */
  lemma InsertedIsIndented(source: string, inserts: map<nat, seq<string>>, indents: seq<(CharRange, Loc)>, ranges: seq<CharRange>, p: nat)
    requires FitsFile(source, inserts, indents, ranges) && p <= |source|
    ensures var doc := EditModel.Doc(CoveredSet(ranges), inserts);
            Holds(source, Inserted(source, inserts, indents, ranges), IndentedDoc(source, doc, indents), p)
  {
    EngineInFile(source, inserts, indents, ranges);
    InsertionsArePuts(source, Puts(inserts, indents));
    CellOfPuts(source, CallsOfAll(source, Puts(inserts, indents)), p);
    PutsInFront(source, inserts, indents, ranges, p);
    PutsBehind(source, inserts, indents, p);
    IndentedTextsAt(source, EditModel.Doc(CoveredSet(ranges), inserts), indents, p);
  }

  lemma PutsTexts(inserts: map<nat, seq<string>>, indents: seq<(CharRange, Loc)>, p: nat)
    ensures TextsIn(Puts(inserts, indents), p) == if p in inserts then inserts[p] else []
  {
    TextsInConcat(InsertStream(inserts, inserts.Keys), ReindentStream(indents), p);
    InsertStreamTexts(inserts, inserts.Keys, p);
    NoTexts(ReindentStream(indents), p);
  }

  lemma CutWhere(ranges: seq<CharRange>, p: nat)
    requires GapSorted(ranges)
    ensures CutByOne(ranges, 2 * p) <==> p > 0 && p - 1 in CoveredSet(ranges) && p in CoveredSet(ranges)
    ensures CutByOne(ranges, 2 * p + 1) <==> p in CoveredSet(ranges)
  {
    CoveredSetMembers(ranges, p);
    if p > 0 { BuriedInOneRange(ranges, p); }
    forall r: CharRange ensures (Cuts(r, 2 * p) <==> r.StrictlyContains(p)) && (Cuts(r, 2 * p + 1) <==> r.Covers(p)) {}
    assert CutByOne(ranges, 2 * p + 1) <==> Covered(ranges, p);
    assert CutByOne(ranges, 2 * p) <==> exists i :: 0 <= i < |ranges| && ranges[i].StrictlyContains(p);
  }

  /** No text is between two deleted characters. */
  ghost predicate NoTextBuried(source: string, doc: EditModel.Doc) {
    forall p: nat :: p <= |source| && doc.Buried(p) ==> Concat(doc.TextsAt(p)) == ""
  }

  /** Without lines that go, the text is that of the document exactly if no text is
      between two removed characters. */
  lemma EmptiedIsRendered(source: string, cells: Cells, doc: EditModel.Doc, ranges: seq<CharRange>)
    requires GapSorted(ranges) && doc.deleted == CoveredSet(ranges)
    requires AllHold(source, cells, doc)
    ensures |Whole(EmptiedAll(cells, ranges))| <= |EditModel.Render(source, doc, 0)|
    ensures Whole(EmptiedAll(cells, ranges)) == EditModel.Render(source, doc, 0) <==> NoTextBuried(source, doc)
  {
    var a, b := EmptiedAll(cells, ranges), DocCells(source, doc);
    RenderIsText(source, doc);
    forall p: nat | p <= |source| ensures EmptiedCell(source, doc, a, b, p) {
      assert Holds(source, cells, doc, p);
      EmptiedCellAt(source, cells, doc, ranges, p);
    }
    forall k | 0 <= k < |a| ensures a[k] == b[k] || |a[k]| < |b[k]| {
      assert EmptiedCell(source, doc, a, b, k / 2);
      assert k == 2 * (k / 2) || k == 2 * (k / 2) + 1;
    }
    LessText(a, b);
    LongerText(a, b, |a|);
    SameIffNotBuried(source, doc, a, b);
  }

  ghost predicate EmptiedCell(source: string, doc: EditModel.Doc, a: Cells, b: Cells, p: nat)
    requires p <= |source| && |a| == |b| == 2 * |source| + 1
  {
    && b[2 * p] == Concat(doc.TextsAt(p)) && a[2 * p] == (if doc.Buried(p) then "" else b[2 * p])
    && (p < |source| ==> a[2 * p + 1] == b[2 * p + 1])
  }

  lemma OnlyBuriedGoes(cells: Cells, doc: EditModel.Doc, ranges: seq<CharRange>, p: nat)
    requires GapSorted(ranges) && doc.deleted == CoveredSet(ranges) && 2 * p < |cells|
    ensures EmptiedAll(cells, ranges)[2 * p] == if doc.Buried(p) then "" else cells[2 * p]
  {
    CutWhere(ranges, p);
    EmptiedAllAt(cells, ranges, 2 * p);
  }

  lemma EmptiedChar(cells: Cells, doc: EditModel.Doc, ranges: seq<CharRange>, p: nat)
    requires GapSorted(ranges) && doc.deleted == CoveredSet(ranges) && 2 * p + 1 < |cells|
    ensures EmptiedAll(cells, ranges)[2 * p + 1] == if p in doc.deleted then "" else cells[2 * p + 1]
  {
    CutWhere(ranges, p);
    EmptiedAllAt(cells, ranges, 2 * p + 1);
  }

  lemma EmptiedCellAt(source: string, cells: Cells, doc: EditModel.Doc, ranges: seq<CharRange>, p: nat)
    requires GapSorted(ranges) && doc.deleted == CoveredSet(ranges)
    requires p <= |source| && |cells| == 2 * |source| + 1 && Holds(source, cells, doc, p)
    ensures EmptiedCell(source, doc, EmptiedAll(cells, ranges), DocCells(source, doc), p)
  {
    DocCellAt(source, doc, p);
    OnlyBuriedGoes(cells, doc, ranges, p);
    if p < |source| { EmptiedChar(cells, doc, ranges, p); }
  }

  lemma SameIffNotBuried(source: string, doc: EditModel.Doc, a: Cells, b: Cells)
    requires |a| == |b| == 2 * |source| + 1
    requires forall p: nat :: p <= |source| ==> EmptiedCell(source, doc, a, b, p)
    ensures a == b <==> NoTextBuried(source, doc)
  {
    if NoTextBuried(source, doc) {
      forall k | 0 <= k < |a| ensures a[k] == b[k] {
        assert EmptiedCell(source, doc, a, b, k / 2);
        assert k == 2 * (k / 2) || k == 2 * (k / 2) + 1;
      }
    } else {
      var p: nat :| p <= |source| && doc.Buried(p) && Concat(doc.TextsAt(p)) != "";
      assert EmptiedCell(source, doc, a, b, p);
    }
  }

  lemma HoldsChars(source: string, cells: Cells, doc: EditModel.Doc)
    requires AllHold(source, cells, doc)
    ensures CharsFrom(cells, 0)
  {
    forall k | 0 <= k < |cells| && k % 2 == 1 ensures cells[k] != "" {
      assert Holds(source, cells, doc, k / 2);
      assert k == 2 * (k / 2) + 1;
    }
  }

  lemma InsertedHasChars(source: string, inserts: map<nat, seq<string>>, indents: seq<(CharRange, Loc)>, ranges: seq<CharRange>)
    requires FitsFile(source, inserts, indents, ranges)
    ensures CharsFrom(Inserted(source, inserts, indents, ranges), 0)
  {
    var indented := IndentedDoc(source, EditModel.Doc(CoveredSet(ranges), inserts), indents);
    AllInserted(source, inserts, indents, ranges);
    HoldsChars(source, Inserted(source, inserts, indents, ranges), indented);
  }

  lemma AllInserted(source: string, inserts: map<nat, seq<string>>, indents: seq<(CharRange, Loc)>, ranges: seq<CharRange>)
    requires FitsFile(source, inserts, indents, ranges)
    ensures AllHold(source, Inserted(source, inserts, indents, ranges),
                    IndentedDoc(source, EditModel.Doc(CoveredSet(ranges), inserts), indents))
  {
    var indented := IndentedDoc(source, EditModel.Doc(CoveredSet(ranges), inserts), indents);
    forall p: nat | p <= |source| ensures Holds(source, Inserted(source, inserts, indents, ranges), indented, p) {
      InsertedIsIndented(source, inserts, indents, ranges, p);
    }
  }

  /** What the rewriter is meant to make of the engine's stream. */
  ghost function Rewritten(source: string, inserts: map<nat, seq<string>>, indents: seq<(CharRange, Loc)>, ranges: seq<CharRange>): string
    requires FitsFile(source, inserts, indents, ranges)
  {
    Whole(RemovedAll(Inserted(source, inserts, indents, ranges), ranges))
  }

  /** That is the text of the indented document exactly if no removal leaves its
      line blank and neither a text nor an indentation lies between two deleted
      characters. */
  lemma RewrittenIsRendered(source: string, inserts: map<nat, seq<string>>, indents: seq<(CharRange, Loc)>, ranges: seq<CharRange>)
    requires FitsFile(source, inserts, indents, ranges)
    ensures var doc := EditModel.Doc(CoveredSet(ranges), inserts);
            var indented := IndentedDoc(source, doc, indents);
            Rewritten(source, inserts, indents, ranges) == EditModel.Render(source, indented, 0) <==>
            NoneBlank(Inserted(source, inserts, indents, ranges), ranges) && NoTextBuried(source, indented)
  {
    var cells := Inserted(source, inserts, indents, ranges);
    var indented := IndentedDoc(source, EditModel.Doc(CoveredSet(ranges), inserts), indents);
    AllInserted(source, inserts, indents, ranges);
    EmptiedIsRendered(source, cells, indented, ranges);
    if NoneBlank(cells, ranges) {
      NoneBlankNoneGoes(cells, ranges);
    } else {
      InsertedHasChars(source, inserts, indents, ranges);
      BlankLinesShorten(cells, ranges);
    }
  }

  /** The rewriter looks up every range where it is exactly if every line that went
      was past in time, and then it makes of the file what it is meant to; that is
      so in any case if no line is left blank. */
  lemma RewriterRuns(source: string, inserts: map<nat, seq<string>>, indents: seq<(CharRange, Loc)>, ranges: seq<CharRange>)
    requires FitsFile(source, inserts, indents, ranges)
    ensures AllInFile(source, FullStream(inserts, indents, ranges))
    ensures AllInFile(source, Puts(inserts, indents))
    ensures var cells, stream := Inserted(source, inserts, indents, ranges), FullStream(inserts, indents, ranges);
            var b, end := AfterAll(Buf(source, []), CallsOfAll(source, Puts(inserts, indents))), AfterStream(source, stream, |stream|);
            && b.Some? && (AllLocated(b.value, cells, ranges) <==> LinesPast(cells, ranges))
            && (LinesPast(cells, ranges) ==> end.Some? && end.value.text == Rewritten(source, inserts, indents, ranges))
            && (NoneBlank(cells, ranges) ==> LinesPast(cells, ranges))
  {
    var cells, stream := Inserted(source, inserts, indents, ranges), FullStream(inserts, indents, ranges);
    EngineInFile(source, inserts, indents, ranges);
    InsertionsArePuts(source, Puts(inserts, indents));
    PutsRun(source, CallsOfAll(source, Puts(inserts, indents)));
    var b := AfterAll(Buf(source, []), CallsOfAll(source, Puts(inserts, indents))).value;
    InsertedHasChars(source, inserts, indents, ranges);
    RemovalsRun(b, cells, ranges);
    CallsOfConcat(source, Puts(inserts, indents), RemoveStream(ranges));
    CallsOfRemovals(source, ranges);
    assert stream[..|stream|] == stream == Puts(inserts, indents) + RemoveStream(ranges);
    AfterAllSplits(Buf(source, []), CallsOfAll(source, Puts(inserts, indents)), CutsOf(ranges));
    if NoneBlank(cells, ranges) { NoneBlankNoneGoes(cells, ranges); }
  }

  /** A text between two removals that touch is in the document, and lost in the
      rewritten file. */
  lemma SeamTextIsLost()
    ensures var inserts, ranges := map[1 := ["x"]], [CharRange(0, 2)];
            && FitsFile("ab", inserts, [], ranges)
            && Rewritten("ab", inserts, [], ranges) !=
               EditModel.Render("ab", IndentedDoc("ab", EditModel.Doc(CoveredSet(ranges), inserts), []), 0)
  {
    var inserts, ranges := map[1 := ["x"]], [CharRange(0, 2)];
    assert ReindentStream([]) == [];
    var doc := EditModel.Doc(CoveredSet(ranges), inserts);
    CoveredSetMembers(ranges, 0);
    CoveredSetMembers(ranges, 1);
    assert ranges[0].Covers(0) && ranges[0].Covers(1);
    assert doc.Buried(1);
    IndentedTextsAt("ab", doc, [], 1);
    IndentedTexts(["x"], Indentation("ab", 1));
    assert Concat(["x"]) == "x" + Concat([]);
    RewrittenIsRendered("ab", inserts, [], ranges);
    assert IndentedDoc("ab", doc, []).Buried(1);
  }

  /** Text and indentation between two deleted characters are lost. */
  lemma {:induction false} BuriedIsLost(source: string, inserts: map<nat, seq<string>>, indents: seq<(CharRange, Loc)>,
                                        ranges: seq<CharRange>, p: nat)
    requires FitsFile(source, inserts, indents, ranges) && 0 < p <= |source|
    requires Covered(ranges, p - 1) && Covered(ranges, p) && IndentAt(source, indents, p) != ""
    ensures !IsRendered(source, inserts, indents, ranges)
  {
    BuriedByRanges(ranges, inserts, p);
    IndentationIsBuried(source, EditModel.Doc(CoveredSet(ranges), inserts), indents, p);
    NotRendered(source, inserts, indents, ranges);
  }

  /** The rewriter is meant to come to the text of the indented document. */
  ghost predicate IsRendered(source: string, inserts: map<nat, seq<string>>, indents: seq<(CharRange, Loc)>, ranges: seq<CharRange>)
    requires FitsFile(source, inserts, indents, ranges)
  {
    Rewritten(source, inserts, indents, ranges) ==
    EditModel.Render(source, IndentedDoc(source, EditModel.Doc(CoveredSet(ranges), inserts), indents), 0)
  }

  lemma {:induction false} NotRendered(source: string, inserts: map<nat, seq<string>>, indents: seq<(CharRange, Loc)>, ranges: seq<CharRange>)
    requires FitsFile(source, inserts, indents, ranges)
    requires !NoTextBuried(source, IndentedDoc(source, EditModel.Doc(CoveredSet(ranges), inserts), indents))
    ensures !IsRendered(source, inserts, indents, ranges)
  {
    RewrittenIsRendered(source, inserts, indents, ranges);
  }

  lemma {:induction false} BuriedByRanges(ranges: seq<CharRange>, inserts: map<nat, seq<string>>, p: nat)
    requires p > 0 && Covered(ranges, p - 1) && Covered(ranges, p)
    ensures EditModel.Doc(CoveredSet(ranges), inserts).Buried(p)
  {
    CoveredSetMembers(ranges, p - 1);
    CoveredSetMembers(ranges, p);
  }

  lemma {:induction false} IndentationIsBuried(source: string, doc: EditModel.Doc, indents: seq<(CharRange, Loc)>, p: nat)
    requires IndentsInFile(source, indents) && p <= |source| && doc.Buried(p) && IndentAt(source, indents, p) != ""
    ensures !NoTextBuried(source, IndentedDoc(source, doc, indents))
  {
    SomethingIndented(source, doc, indents, p);
    SomethingBuried(source, IndentedDoc(source, doc, indents), p);
  }

  lemma {:induction false} SomethingIndented(source: string, doc: EditModel.Doc, indents: seq<(CharRange, Loc)>, p: nat)
    requires IndentsInFile(source, indents) && p <= |source| && IndentAt(source, indents, p) != ""
    ensures Concat(IndentedDoc(source, doc, indents).TextsAt(p)) != ""
  {
    IndentedTextsAt(source, doc, indents, p);
    NotEmpty(IndentAt(source, indents, p), Concat(AllIndented(doc.TextsAt(p), Indentation(source, p))));
  }

  lemma NotEmpty(a: string, b: string)
    requires a != ""
    ensures a + b != ""
  {
    assert |a + b| > 0;
  }

  lemma {:induction false} SomethingBuried(source: string, doc: EditModel.Doc, p: nat)
    requires p <= |source| && doc.Buried(p) && Concat(doc.TextsAt(p)) != ""
    ensures !NoTextBuried(source, doc)
  {
  }

  /** Such as the indentation of a line inside a single removal. */
  lemma IndentationIsLost()
    ensures var source, indents, ranges := "p\n y", [(CharRange(3, 3), File(0))], [CharRange(0, 4)];
            && FitsFile(source, map[], indents, ranges)
            && !IsRendered(source, map[], indents, ranges)
  {
    var source, indents, ranges := "p\n y", [(CharRange(3, 3), File(0))], [CharRange(0, 4)];
    OneLineFits(source, indents, ranges);
    BuriedIsLost(source, map[], indents, ranges, 2);
  }

  lemma OneLineFits(source: string, indents: seq<(CharRange, Loc)>, ranges: seq<CharRange>)
    requires source == "p\n y" && indents == [(CharRange(3, 3), File(0))] && ranges == [CharRange(0, 4)]
    ensures FitsFile(source, map[], indents, ranges) && IndentAt(source, indents, 2) == " "
    ensures Covered(ranges, 1) && Covered(ranges, 2)
  {
    assert ReindentStream(indents) == [Reindent(CharRange(3, 3), File(0))];
    OneLineIndented(source, Reindent(CharRange(3, 3), File(0)));
    assert ranges[0].Covers(1) && ranges[0].Covers(2);
  }

  lemma {:induction false} OneLineIndented(source: string, r: Rewrite)
    requires source == "p\n y" && r == Reindent(CharRange(3, 3), File(0))
    ensures AllInFile(source, [r]) && InFront(CallsOfAll(source, [r]), 2) == " "
  {
    OneLineSpaces(source);
    ReindentsLines(source, CharRange(3, 3), 0, 2);
    CallsAppended(source, [], r);
    assert [] + [r] == [r];
    assert CallsOfAll(source, [r]) == CallsOf(source, r);
  }

  lemma {:induction false} OneLineSpaces(source: string)
    requires source == "p\n y"
    ensures LineStart(source, 3) == 2
    ensures Indentation(source, 3) == Indentation(source, 2) == " " && Indentation(source, 0) == ""
  {
    assert LineStart(source, 3) == 2 && LineStart(source, 0) == 0;
    assert IsWhitespaceExceptNL(source[2]) && !IsWhitespaceExceptNL(source[3]) && !IsWhitespaceExceptNL(source[0]);
    assert SpaceEnd(source, 2) == SpaceEnd(source, 3) == 3 && SpaceEnd(source, 0) == 0;
    assert source[2..3] == " " && source[0..0] == "";
  }
}
