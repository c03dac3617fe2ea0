/** What the migrator's actions do to the committed state, and what a whole
    history of transactions must leave behind. */
module TransactionModel {
  import opened Removals
  import opened EditModel
  import opened SourceModel
  import opened Diagnostics
  import opened Sequences

  datatype Action =
    | ActInsert(loc: Loc, text: string)
    | ActInsertAfterToken(loc: Loc, text: string)
    | ActRemove(range: SourceRange)
    | ActRemoveStmt(stmt: Stmt)
    | ActReplace(range: SourceRange, replacement: SourceRange)
    | ActReplaceText(loc: Loc, text: string, newText: string)
    | ActIncreaseIndentation(range: SourceRange, parentIndent: Loc)
    | ActClearDiagnostic(sel: Selection)

  const REMOVED_EXPR_MACRO := "__IMPL_ARCMT_REMOVED_EXPR__"

  // ----- Which actions are possible -----

  predicate CanInsert(src: Source, loc: Loc) {
    && !loc.Invalid?
    && !src.inSystemHeader(loc.Expansion())
    && (loc.File? || loc.atStart)
  }

  predicate CanInsertAfterToken(src: Source, loc: Loc) {
    && !loc.Invalid?
    && !src.inSystemHeader(loc.Expansion())
    && (loc.File? || loc.atEnd)
  }

  predicate CanRemoveRange(src: Source, range: SourceRange) {
    CanInsert(src, range.begin) && CanInsertAfterToken(src, range.end)
  }

  predicate CanReplaceText(src: Source, loc: Loc, text: string) {
    CanInsert(src, loc) &&
    text <= (if loc.Expansion() <= |src.text| then src.text[loc.Expansion()..] else "")
  }

  predicate Can(src: Source, a: Action) {
    match a
    case ActInsert(loc, _) => CanInsert(src, loc)
    case ActInsertAfterToken(loc, _) => CanInsertAfterToken(src, loc)
    case ActRemove(range) => CanRemoveRange(src, range)
    case ActRemoveStmt(stmt) => CanRemoveRange(src, src.stmtRange(stmt))
    case ActReplace(range, replacement) => CanRemoveRange(src, range) && CanRemoveRange(src, replacement)
    case ActReplaceText(loc, text, _) => CanReplaceText(src, loc, text)
    case ActIncreaseIndentation(_, _) => true
    case ActClearDiagnostic(_) => true
  }

  predicate AllPossible(src: Source, actions: seq<Action>) {
    forall a :: a in actions ==> Can(src, a)
  }

  /** The ranges of an action run forwards, as those of a syntax tree do. */
  predicate Sane(src: Source, a: Action) {
    match a
    case ActRemove(range) => Forward(src, range)
    case ActRemoveStmt(stmt) => Forward(src, src.stmtRange(stmt))
    case ActReplace(range, replacement) => Forward(src, range) && Forward(src, replacement)
    case ActIncreaseIndentation(range, _) => !range.IsInvalid()
    case _ => true
  }

  predicate Forward(src: Source, range: SourceRange) {
    range.IsInvalid() || TokenRange(src, range).WellFormed()
  }

  function TokenRange(src: Source, range: SourceRange): CharRange
    requires !range.IsInvalid()
  {
    CharRange(range.begin.Expansion(), src.TokenEnd(range.end))
  }

  // ----- What a possible action does -----

  /** Everything that commits change. */
  datatype State = State(
    doc: Doc,
    stmts: set<Stmt>,
    indents: seq<(CharRange, Loc)>,
    diags: seq<Diagnostic>)

  /** The single-character edits behind an action. */
  function EditsOf(src: Source, stmts: set<Stmt>, a: Action): (edits: seq<Edit>)
    requires Can(src, a) && Sane(src, a)
    ensures forall e :: e in edits ==> e.WellFormed()
  {
    match a
    case ActInsert(loc, text) => [Insertion(loc.Expansion(), text)]
    case ActInsertAfterToken(loc, text) => [Insertion(src.TokenEnd(loc), text)]
    case ActRemove(range) => [Removal(TokenRange(src, range))]
    case ActRemoveStmt(stmt) =>
      if stmt in stmts then []
      else [Removal(TokenRange(src, src.stmtRange(stmt)))] +
           (if src.stmtIsExpr(stmt)
            then [Insertion(src.stmtRange(stmt).begin.Expansion(), REMOVED_EXPR_MACRO)] else [])
    case ActReplace(range, replacement) => ReplaceEdits(src, range, replacement)
    case ActReplaceText(loc, text, newText) =>
      [Removal(CharRange(loc.Expansion(), loc.Expansion() + |text|)), Insertion(loc.Expansion(), newText)]
    case ActIncreaseIndentation(_, _) => []
    case ActClearDiagnostic(_) => []
  }

  /** Keeps `replacement` and removes what `range` has before and after it; a
      replacement that is not inside the range changes nothing. */
  function ReplaceEdits(src: Source, range: SourceRange, replacement: SourceRange): seq<Edit>
    requires !range.IsInvalid() && !replacement.IsInvalid()
  {
    if !TokenRange(src, replacement).CompareWith(TokenRange(src, range)).RangeContained? then []
    else
      (if range.begin != replacement.begin
       then [Removal(CharRange(range.begin.Expansion(), replacement.begin.Expansion()))] else []) +
      (if replacement.end != range.end
       then [Removal(CharRange(src.TokenEnd(replacement.end), src.TokenEnd(range.end)))] else [])
  }

  ghost function Apply(src: Source, st: State, a: Action): State
    requires Can(src, a) && Sane(src, a)
  {
    State(EditModel.ApplyAll(st.doc, EditsOf(src, st.stmts, a)),
          if a.ActRemoveStmt? then st.stmts + {a.stmt} else st.stmts,
          if a.ActIncreaseIndentation? then st.indents + [(TokenRange(src, a.range), a.parentIndent.ExpansionLoc())] else st.indents,
          if a.ActClearDiagnostic? then ClearedAll(st.diags, a.sel) else st.diags)
  }

  ghost predicate Committable(src: Source, actions: seq<Action>) {
    forall a :: a in actions ==> Can(src, a) && Sane(src, a)
  }

  ghost function ApplyActions(src: Source, st: State, actions: seq<Action>): State
    requires Committable(src, actions)
    decreases |actions|
  {
    if actions == [] then st
    else Apply(src, ApplyActions(src, st, actions[..|actions| - 1]), actions[|actions| - 1])
  }

  // ----- What that means for the text -----

  /** The characters of a range, as deleted by an action. */
  predicate InRange(src: Source, range: SourceRange, p: nat) {
    !range.IsInvalid() && range.begin.Expansion() <= p < src.TokenEnd(range.end)
  }

  /** Which characters an action deletes. */
  predicate Deletes(src: Source, stmts: set<Stmt>, a: Action, p: nat)
    requires Can(src, a)
  {
    match a
    case ActRemove(range) => InRange(src, range, p)
    case ActRemoveStmt(stmt) => stmt !in stmts && InRange(src, src.stmtRange(stmt), p)
    case ActReplace(range, replacement) =>
      && InRange(src, range, p) && !InRange(src, replacement, p)
      && range.begin.Expansion() <= replacement.begin.Expansion() && src.TokenEnd(replacement.end) <= src.TokenEnd(range.end)
    case ActReplaceText(loc, text, _) => loc.Expansion() <= p < loc.Expansion() + |text|
    case _ => false
  }

  lemma ApplyOne(doc: Doc, e: Edit)
    ensures EditModel.ApplyAll(doc, [e]) == EditModel.Apply(doc, e)
    ensures EditModel.ApplyAll(doc, []) == doc
  {
    assert [e][..0] == [];
  }

  lemma ApplyTwo(doc: Doc, e: Edit, f: Edit)
    ensures EditModel.ApplyAll(doc, [e, f]) == EditModel.Apply(EditModel.Apply(doc, e), f)
  {
    ApplyOne(doc, e);
    assert [e, f][..1] == [e];
  }

  lemma DeletedNow(doc: Doc, e: Edit, p: nat)
    ensures p in EditModel.Apply(doc, e).deleted <==> p in doc.deleted || (e.Removal? && e.range.begin <= p < e.range.end)
  {
  }

  /** A possible action deletes just the characters it names, and stores just the
      range it is to indent. */
  lemma WhatIsDeleted(src: Source, st: State, a: Action, p: nat)
    requires Can(src, a) && Sane(src, a)
    ensures p in Apply(src, st, a).doc.deleted <==> p in st.doc.deleted || Deletes(src, st.stmts, a, p)
    ensures a.ActIncreaseIndentation? ==>
              |Apply(src, st, a).indents| == |st.indents| + 1 && st.indents <= Apply(src, st, a).indents &&
              var stored := Apply(src, st, a).indents[|st.indents|];
              && stored.0.begin == a.range.begin.Expansion() && stored.0.end == src.TokenEnd(a.range.end)
              && (if a.parentIndent.Invalid? then stored.1.Invalid? else stored.1 == File(a.parentIndent.Expansion()))
  {
    EditsDelete(st.doc, EditsOf(src, st.stmts, a), p);
    if a.ActReplace? { ReplaceDeletes(src, a.range, a.replacement, p); }
  }

  predicate DeletedByOne(edits: seq<Edit>, p: nat) {
    exists i :: 0 <= i < |edits| && edits[i].Removal? && edits[i].range.begin <= p < edits[i].range.end
  }

  lemma EditsDelete(doc: Doc, edits: seq<Edit>, p: nat)
    requires |edits| <= 2
    ensures p in EditModel.ApplyAll(doc, edits).deleted <==> p in doc.deleted || DeletedByOne(edits, p)
  {
    if |edits| == 0 {
      ApplyOne(doc, Insertion(0, ""));
    } else if |edits| == 1 {
      ApplyOne(doc, edits[0]);
      DeletedNow(doc, edits[0], p);
      assert edits == [edits[0]];
    } else {
      assert edits == [edits[0], edits[1]];
      ApplyTwo(doc, edits[0], edits[1]);
      DeletedNow(doc, edits[0], p);
      DeletedNow(EditModel.Apply(doc, edits[0]), edits[1], p);
    }
  }

  lemma ReplaceDeletes(src: Source, range: SourceRange, replacement: SourceRange, p: nat)
    requires !range.IsInvalid() && !replacement.IsInvalid() && Forward(src, range) && Forward(src, replacement)
    ensures |ReplaceEdits(src, range, replacement)| <= 2
    ensures DeletedByOne(ReplaceEdits(src, range, replacement), p) <==>
            && InRange(src, range, p) && !InRange(src, replacement, p)
            && range.begin.Expansion() <= replacement.begin.Expansion() && src.TokenEnd(replacement.end) <= src.TokenEnd(range.end)
  {
    var edits := ReplaceEdits(src, range, replacement);
    if |edits| == 2 {
      assert edits == [edits[0], edits[1]];
    } else if |edits| == 1 {
      assert edits == [edits[0]];
    }
  }

  /** Between tokens of the file, from the first character of one to the last of the
      other is removed, and a macro expansion is removed whole. */
  lemma RemovedTokens(src: Source, st: State, b: nat, e: nat, first: nat, last: nat, atEnd: bool, atStart: bool, p: nat)
    ensures var tokens := ActRemove(SourceRange(File(b), File(e)));
            b <= src.lexerTokenEnd(e) && Can(src, tokens) ==>
            Sane(src, tokens) && (p in Apply(src, st, tokens).doc.deleted <==> p in st.doc.deleted || b <= p < src.lexerTokenEnd(e))
    ensures var expansion := ActRemove(SourceRange(Macro(first, last, true, atEnd), Macro(first, last, atStart, true)));
            first <= src.lexerTokenEnd(last) && Can(src, expansion) ==>
            Sane(src, expansion) &&
            (p in Apply(src, st, expansion).doc.deleted <==> p in st.doc.deleted || first <= p < src.lexerTokenEnd(last))
  {
    var tokens := ActRemove(SourceRange(File(b), File(e)));
    if b <= src.lexerTokenEnd(e) && Can(src, tokens) { WhatIsDeleted(src, st, tokens, p); }
    var expansion := ActRemove(SourceRange(Macro(first, last, true, atEnd), Macro(first, last, atStart, true)));
    if first <= src.lexerTokenEnd(last) && Can(src, expansion) { WhatIsDeleted(src, st, expansion, p); }
  }

  /** The text an action puts somewhere, and where. */
  datatype Written = NothingWritten | Text(at: nat, text: string)

  function WrittenBy(src: Source, stmts: set<Stmt>, a: Action): Written
    requires Can(src, a)
  {
    match a
    case ActInsert(loc, text) => Text(loc.Expansion(), text)
    case ActInsertAfterToken(loc, text) => Text(src.TokenEnd(loc), text)
    case ActRemoveStmt(stmt) =>
      if stmt !in stmts && src.stmtIsExpr(stmt) then Text(src.stmtRange(stmt).begin.Expansion(), REMOVED_EXPR_MACRO)
      else NothingWritten
    case ActReplaceText(loc, _, newText) => Text(loc.Expansion(), newText)
    case _ => NothingWritten
  }

  /** A location that keeps a character next to it keeps its texts, and gets the text
      of the action behind them if that is for it. */
  lemma WhatIsWritten(src: Source, st: State, a: Action, p: nat)
    requires Can(src, a) && Sane(src, a)
    requires var now := Apply(src, st, a).doc; p == 0 || p - 1 !in now.deleted || p !in now.deleted
    ensures var w := WrittenBy(src, st.stmts, a);
            Apply(src, st, a).doc.TextsAt(p) == st.doc.TextsAt(p) + if w.Text? && w.at == p then [w.text] else []
  {
    var edits, texts := EditsOf(src, st.stmts, a), st.doc.TextsAt(p);
    NothingMore(texts);
    if |edits| == 0 {
      ApplyOne(st.doc, Insertion(0, ""));
    } else if |edits| == 1 {
      assert edits == [edits[0]];
      ApplyOne(st.doc, edits[0]);
      WrittenNow(st.doc, edits[0], p);
    } else {
      assert edits == [edits[0], edits[1]];
      ApplyTwo(st.doc, edits[0], edits[1]);
      WrittenNow(EditModel.Apply(st.doc, edits[0]), edits[1], p);
      WrittenNow(st.doc, edits[0], p);
    }
  }

  lemma WrittenNow(doc: Doc, e: Edit, p: nat)
    requires var now := EditModel.Apply(doc, e); p == 0 || p - 1 !in now.deleted || p !in now.deleted
    ensures p == 0 || p - 1 !in doc.deleted || p !in doc.deleted
    ensures EditModel.Apply(doc, e).TextsAt(p) == doc.TextsAt(p) + if e.Insertion? && e.at == p then [e.text] else []
  {
    if e.Removal? && p > 0 {
      assert e.range.Covers(p - 1) ==> p - 1 in e.range.Positions();
      assert e.range.Covers(p) ==> p in e.range.Positions();
    }
    NothingMore(doc.TextsAt(p));
  }

  /** When an action is possible: insertions need a place outside system headers, at
      the start or the end of a macro expansion if in one; a replaced text has to be
      there. */
  lemma WhatIsPossible(src: Source, loc: Loc, end: Loc, text: string, newText: string)
    ensures Can(src, ActInsert(loc, text)) <==>
            match loc
            case Invalid => false
            case File(offset) => !src.inSystemHeader(offset)
            case Macro(first, _, atStart, _) => atStart && !src.inSystemHeader(first)
    ensures Can(src, ActInsertAfterToken(loc, text)) <==>
            match loc
            case Invalid => false
            case File(offset) => !src.inSystemHeader(offset)
            case Macro(first, _, _, atEnd) => atEnd && !src.inSystemHeader(first)
    ensures Can(src, ActRemove(SourceRange(loc, end))) <==> Can(src, ActInsert(loc, text)) && Can(src, ActInsertAfterToken(end, text))
    ensures Can(src, ActReplaceText(loc, text, newText)) <==>
            && Can(src, ActInsert(loc, newText))
            && var at := loc.Expansion(); text == "" || (at + |text| <= |src.text| && src.text[at..at + |text|] == text)
  {
    if Can(src, ActInsert(loc, newText)) && loc.Expansion() <= |src.text| {
      var rest := src.text[loc.Expansion()..];
      assert |text| <= |rest| ==> rest[..|text|] == src.text[loc.Expansion()..loc.Expansion() + |text|];
      assert text <= rest <==> |text| <= |rest| && rest[..|text|] == text;
    }
  }

  // ----- Requests and histories -----

  /** The public entry points that queue actions. */
  datatype Request =
    | Insert(loc: Loc, text: string)
    | InsertAfterToken(loc: Loc, text: string)
    | Remove(range: SourceRange)
    | RemoveStmt(stmt: Stmt)
    | ReplaceWithText(range: SourceRange, text: string)
    | ReplaceWithRange(range: SourceRange, replacement: SourceRange)
    | ReplaceStmt(stmt: Stmt, text: string)
    | ReplaceText(loc: Loc, text: string, newText: string)
    | IncreaseIndentation(range: SourceRange, parentIndent: Loc)
    | ClearDiagnostic(sel: Selection)

  /** The actions a request asks for. */
  function Requested(src: Source, r: Request): seq<Action> {
    match r
    case Insert(loc, text) => [ActInsert(loc, text)]
    case InsertAfterToken(loc, text) => [ActInsertAfterToken(loc, text)]
    case Remove(range) => [ActRemove(range)]
    case RemoveStmt(stmt) => [ActRemoveStmt(src.ignoreImplicit(stmt))]
    case ReplaceWithText(range, text) => [ActRemove(range), ActInsert(range.begin, text)]
    case ReplaceWithRange(range, replacement) => [ActReplace(range, replacement)]
    case ReplaceStmt(stmt, text) =>
      [ActInsert(src.stmtRange(stmt).begin, text), ActRemoveStmt(src.ignoreImplicit(stmt))]
    case ReplaceText(loc, text, newText) => [ActReplaceText(loc, text, newText)]
    case IncreaseIndentation(range, parentIndent) =>
      if range.IsInvalid() then [] else [ActIncreaseIndentation(range, parentIndent)]
    case ClearDiagnostic(sel) => [ActClearDiagnostic(sel)]
  }

  predicate SaneRequest(src: Source, r: Request) {
    forall a :: a in Requested(src, r) ==> Sane(src, a)
  }

  const NOTHING: seq<Action> := []

  /** What a request does to the characters: a statement is removed without what
      stands for it implicitly. */
  predicate RequestDeletes(src: Source, stmts: set<Stmt>, r: Request, p: nat)
    requires AllPossible(src, Requested(src, r))
  {
    match r
    case Remove(range) => InRange(src, range, p)
    case ReplaceWithText(range, _) => InRange(src, range, p)
    case RemoveStmt(stmt) => src.ignoreImplicit(stmt) !in stmts && InRange(src, src.stmtRange(src.ignoreImplicit(stmt)), p)
    case ReplaceStmt(stmt, _) => src.ignoreImplicit(stmt) !in stmts && InRange(src, src.stmtRange(src.ignoreImplicit(stmt)), p)
    case ReplaceWithRange(range, replacement) =>
      assert ActReplace(range, replacement) in Requested(src, r);
      && InRange(src, range, p) && !InRange(src, replacement, p)
      && range.begin.Expansion() <= replacement.begin.Expansion() && src.TokenEnd(replacement.end) <= src.TokenEnd(range.end)
    case ReplaceText(loc, text, newText) =>
      assert ActReplaceText(loc, text, newText) in Requested(src, r);
      loc.Expansion() <= p < loc.Expansion() + |text|
    case _ => false
  }

  lemma WhatRequestsDelete(src: Source, st: State, r: Request, p: nat)
    requires Committable(src, Requested(src, r))
    ensures p in ApplyActions(src, st, Requested(src, r)).doc.deleted <==>
            p in st.doc.deleted || RequestDeletes(src, st.stmts, r, p)
  {
    var asked := Requested(src, r);
    if |asked| == 1 {
      OneAction(src, st, asked[0]);
      assert asked == [asked[0]];
      WhatIsDeleted(src, st, asked[0], p);
    } else if |asked| == 2 {
      TwoActions(src, st, asked[0], asked[1]);
      assert asked == [asked[0], asked[1]];
      TwoDelete(src, st, asked[0], asked[1], p);
    }
  }

  lemma TwoDelete(src: Source, st: State, a: Action, b: Action, p: nat)
    requires Can(src, a) && Sane(src, a) && Can(src, b) && Sane(src, b)
    ensures var mid := Apply(src, st, a);
            p in Apply(src, mid, b).doc.deleted <==>
            p in st.doc.deleted || Deletes(src, st.stmts, a, p) || Deletes(src, mid.stmts, b, p)
  {
    WhatIsDeleted(src, st, a, p);
    WhatIsDeleted(src, Apply(src, st, a), b, p);
  }

  lemma OneAction(src: Source, st: State, a: Action)
    requires Can(src, a) && Sane(src, a)
    ensures ApplyActions(src, st, [a]) == Apply(src, st, a)
  {
    assert [a][..0] == [];
  }

  lemma TwoActions(src: Source, st: State, a: Action, b: Action)
    requires Can(src, a) && Sane(src, a) && Can(src, b) && Sane(src, b)
    ensures ApplyActions(src, st, [a, b]) == Apply(src, Apply(src, st, a), b)
  {
    OneAction(src, st, a);
    assert [a, b][..1] == [a];
  }

  /** The text of a request, and where it goes. */
  function RequestWrites(src: Source, r: Request): Written
    requires AllPossible(src, Requested(src, r))
  {
    match r
    case Insert(loc, text) =>
      assert ActInsert(loc, text) in Requested(src, r);
      Text(loc.Expansion(), text)
    case InsertAfterToken(loc, text) =>
      assert ActInsertAfterToken(loc, text) in Requested(src, r);
      Text(src.TokenEnd(loc), text)
    case ReplaceWithText(range, text) =>
      assert ActInsert(range.begin, text) in Requested(src, r);
      Text(range.begin.Expansion(), text)
    case ReplaceStmt(stmt, text) =>
      assert ActInsert(src.stmtRange(stmt).begin, text) in Requested(src, r);
      Text(src.stmtRange(stmt).begin.Expansion(), text)
    case ReplaceText(loc, text, newText) =>
      assert ActReplaceText(loc, text, newText) in Requested(src, r);
      Text(loc.Expansion(), newText)
    case _ => NothingWritten
  }

  lemma TwoWritten(src: Source, st: State, a: Action, b: Action, p: nat)
    requires Can(src, a) && Sane(src, a) && Can(src, b) && Sane(src, b)
    requires var now := Apply(src, Apply(src, st, a), b).doc; p == 0 || p - 1 !in now.deleted || p !in now.deleted
    ensures var mid := Apply(src, st, a);
            var v, w := WrittenBy(src, st.stmts, a), WrittenBy(src, mid.stmts, b);
            Apply(src, mid, b).doc.TextsAt(p) ==
            st.doc.TextsAt(p) + (if v.Text? && v.at == p then [v.text] else []) + (if w.Text? && w.at == p then [w.text] else [])
  {
    var mid := Apply(src, st, a);
    if p > 0 { WhatIsDeleted(src, mid, b, p - 1); }
    WhatIsDeleted(src, mid, b, p);
    WhatIsWritten(src, mid, b, p);
    WhatIsWritten(src, st, a, p);
  }

  /** It goes behind the texts that are there, unless both characters around the
      place are gone in the end. */
  lemma WhereRequestsWrite(src: Source, st: State, r: Request)
    requires Committable(src, Requested(src, r))
    requires RequestWrites(src, r).Text?
    ensures var w, now := RequestWrites(src, r), ApplyActions(src, st, Requested(src, r)).doc;
            w.at == 0 || w.at - 1 !in now.deleted || w.at !in now.deleted ==>
            st.doc.TextsAt(w.at) + [w.text] <= now.TextsAt(w.at)
  {
    var asked, at := Requested(src, r), RequestWrites(src, r).at;
    var now := ApplyActions(src, st, asked).doc;
    if at == 0 || at - 1 !in now.deleted || at !in now.deleted {
      if |asked| == 1 {
        assert asked == [asked[0]];
        OneAction(src, st, asked[0]);
        WhatIsWritten(src, st, asked[0], at);
      } else {
        assert asked == [asked[0], asked[1]];
        TwoActions(src, st, asked[0], asked[1]);
        TwoWritten(src, st, asked[0], asked[1], at);
      }
    }
  }

  /** What is really queued: clearing a diagnostic that is not there is not. */
  ghost function Queued(src: Source, diags: seq<Diagnostic>, r: Request): seq<Action> {
    if r.ClearDiagnostic? && !Has(diags, r.sel) then [] else Requested(src, r)
  }

  datatype Event = Start | Request(r: Request) | Commit | Abort

  /** The engine between calls. */
  datatype Engine = Engine(committed: State, cached: seq<Action>, open: bool)

  /** What the assertions of the entry points allow. Only `ReplaceText` and an
      invalid `IncreaseIndentation` may come outside a transaction. */
  predicate Allowed(src: Source, open: bool, e: Event) {
    match e
    case Start => !open
    case Request(r) =>
      && SaneRequest(src, r)
      && (open || r.ReplaceText? || (r.IncreaseIndentation? && r.range.IsInvalid()))
    case Commit => open
    case Abort => open
  }

  ghost function Step(src: Source, g: Engine, e: Event): Engine
    requires forall a :: a in g.cached ==> Sane(src, a)
  {
    match e
    case Start => g.(open := true)
    case Request(r) => g.(cached := g.cached + Queued(src, g.committed.diags, r))
    case Abort => g.(cached := [], open := false)
    case Commit =>
      if AllPossible(src, g.cached)
      then Engine(ApplyActions(src, g.committed, g.cached), [], false)
      else g.(cached := [], open := false)
  }

  predicate LegalFrom(src: Source, open: bool, history: seq<Event>)
    decreases |history|
  {
    history == [] ||
    (Allowed(src, open, history[0]) && LegalFrom(src, OpenAfter(open, history[0]), history[1..]))
  }

  function OpenAfter(open: bool, e: Event): bool {
    match e
    case Start => true
    case Request(_) => open
    case Commit => false
    case Abort => false
  }

  /** The engine after a whole history of calls. */
  ghost function Run(src: Source, g: Engine, history: seq<Event>): Engine
    requires forall a :: a in g.cached ==> Sane(src, a)
    requires LegalFrom(src, g.open, history)
    decreases |history|
  {
    if history == [] then g else Run(src, Step(src, g, history[0]), history[1..])
  }

  // ----- All or nothing -----

  /** Reads off a history, without running anything, the actions of exactly
      those transactions that were committed and had every action possible.
      `asked` holds what the transaction under way has asked for so far. */
  function CommittedActions(src: Source, asked: seq<Action>, history: seq<Event>): seq<Action>
    decreases |history|
  {
    if history == [] then []
    else match history[0]
      case Start => CommittedActions(src, asked, history[1..])
      case Request(r) => CommittedActions(src, asked + Requested(src, r), history[1..])
      case Abort => CommittedActions(src, [], history[1..])
      case Commit =>
        (if AllPossible(src, asked) then asked else []) + CommittedActions(src, [], history[1..])
  }

  lemma {:induction false} CommittedAreCommittable(src: Source, open: bool, asked: seq<Action>, history: seq<Event>)
    requires LegalFrom(src, open, history)
    requires forall a :: a in asked ==> Sane(src, a)
    ensures Committable(src, CommittedActions(src, asked, history))
    decreases |history|
  {
    if history != [] {
      var asked' := match history[0]
        case Start => asked
        case Request(r) => asked + Requested(src, r)
        case Abort => []
        case Commit => [];
      CommittedAreCommittable(src, OpenAfter(open, history[0]), asked', history[1..]);
    }
  }

  /** The requests for diagnostics that are not there, left out. */
  ghost function Useful(diags: seq<Diagnostic>, actions: seq<Action>): (useful: seq<Action>)
    ensures forall a :: a in useful ==> a in actions
    ensures forall a :: a in actions && !a.ActClearDiagnostic? ==> a in useful
  {
    if actions == [] then []
    else
      var last := actions[|actions| - 1];
      Useful(diags, actions[..|actions| - 1]) +
      (if last.ActClearDiagnostic? && !Has(diags, last.sel) then [] else [last])
  }

  lemma {:induction false} UsefulAppend(diags: seq<Diagnostic>, a: seq<Action>, b: seq<Action>)
    ensures Useful(diags, a + b) == Useful(diags, a) + Useful(diags, b)
  {
    if b == [] {
      NothingMore(a);
      NothingMore(Useful(diags, a));
    } else {
      var front, last := b[..|b| - 1], b[|b| - 1];
      UsefulAppend(diags, a, front);
      FrontOfBoth(a, b);
      Regroup(Useful(diags, a), Useful(diags, front),
              if last.ActClearDiagnostic? && !Has(diags, last.sel) then [] else [last]);
    }
  }

  lemma QueuedIsUseful(src: Source, diags: seq<Diagnostic>, r: Request)
    ensures Queued(src, diags, r) == Useful(diags, Requested(src, r))
  {
    var asked := Requested(src, r);
    if r.ClearDiagnostic? {
      assert asked[..0] == NOTHING && asked[0] == ActClearDiagnostic(r.sel);
      NothingMore(asked);
    } else {
      AllUseful(diags, asked);
    }
  }

  lemma {:induction false} AllUseful(diags: seq<Diagnostic>, actions: seq<Action>)
    requires forall a :: a in actions ==> !a.ActClearDiagnostic?
    ensures Useful(diags, actions) == actions
  {
    if actions != [] {
      AllUseful(diags, actions[..|actions| - 1]);
      LastApart(actions);
    }
  }

  /** Leaving out the useless clearings changes nothing, and no commit can make
      one of them useful: diagnostics are only ever cleared. */
  lemma {:induction false} UselessClearings(src: Source, st: State, actions: seq<Action>)
    requires Committable(src, actions)
    ensures ApplyActions(src, st, actions) == ApplyActions(src, st, Useful(st.diags, actions))
    ensures forall d :: d in ApplyActions(src, st, actions).diags ==> d in st.diags
    decreases |actions|
  {
    if actions != [] {
      var front, last := actions[..|actions| - 1], actions[|actions| - 1];
      UselessClearings(src, st, front);
      var before := ApplyActions(src, st, front);
      var useful := Useful(st.diags, front);
      if last.ActClearDiagnostic? {
        ClearingIsComplete(before.diags, last.sel);
        if !Has(st.diags, last.sel) {
          ClearingNothing(before.diags, last.sel);
          assert useful + [] == useful;
        }
      }
      assert (useful + [last])[..|useful|] == useful;
    }
  }

  lemma {:induction false} ApplyActionsSplits(src: Source, st: State, a: seq<Action>, b: seq<Action>)
    requires Committable(src, a) && Committable(src, b)
    ensures Committable(src, a + b)
    ensures ApplyActions(src, st, a + b) == ApplyActions(src, ApplyActions(src, st, a), b)
    decreases |b|
  {
    if b == [] {
      assert a + b == a;
    } else {
      ApplyActionsSplits(src, st, a, b[..|b| - 1]);
      FrontOfBoth(a, b);
    }
  }

  /** After any legal history, the committed state is what the actions of the
      successful transactions make of the initial state, one after the other;
      aborted and impossible transactions leave no trace. */
  lemma {:induction false} AllOrNothing(src: Source, g: Engine, asked: seq<Action>, history: seq<Event>)
    requires LegalFrom(src, g.open, history)
    requires forall a :: a in asked ==> Sane(src, a)
    requires g.cached == Useful(g.committed.diags, asked)
    ensures Committable(src, CommittedActions(src, asked, history))
    ensures Run(src, g, history).committed ==
            ApplyActions(src, g.committed, CommittedActions(src, asked, history))
    decreases |history|
  {
    CommittedAreCommittable(src, g.open, asked, history);
    if history != [] {
      var next := Step(src, g, history[0]);
      match history[0]
      case Start =>
        AllOrNothing(src, next, asked, history[1..]);
      case Request(r) =>
        QueuedIsUseful(src, g.committed.diags, r);
        UsefulAppend(g.committed.diags, asked, Requested(src, r));
        AllOrNothing(src, next, asked + Requested(src, r), history[1..]);
      case Abort =>
        AllOrNothing(src, next, [], history[1..]);
      case Commit =>
        AllOrNothing(src, next, [], history[1..]);
        var rest := CommittedActions(src, [], history[1..]);
        if AllPossible(src, asked) {
          UselessClearings(src, g.committed, asked);
          ApplyActionsSplits(src, g.committed, asked, rest);
        } else {
          assert [] + rest == rest;
        }
    }
  }

  // ----- What a transaction commits that did not ask for it -----

  /** What each commit of a history is about, whether possible or not. */
  function Batches(src: Source, asked: seq<Action>, history: seq<Event>): seq<seq<Action>>
    decreases |history|
  {
    if history == [] then []
    else match history[0]
      case Start => Batches(src, asked, history[1..])
      case Request(r) => Batches(src, asked + Requested(src, r), history[1..])
      case Abort => Batches(src, [], history[1..])
      case Commit => [asked] + Batches(src, [], history[1..])
  }

  /** What was asked for between the Start and the Commit of each committed
      transaction. */
  function OwnBatches(src: Source, open: bool, own: seq<Action>, history: seq<Event>): seq<seq<Action>>
    decreases |history|
  {
    if history == [] then []
    else match history[0]
      case Start => OwnBatches(src, true, [], history[1..])
      case Request(r) => OwnBatches(src, open, if open then own + Requested(src, r) else own, history[1..])
      case Abort => OwnBatches(src, false, [], history[1..])
      case Commit => [own] + OwnBatches(src, false, [], history[1..])
  }

  /** Some transaction is committed after a `ReplaceText` that came before its
      Start; `pending` says that one has come. */
  predicate CommitsStray(open: bool, pending: bool, history: seq<Event>)
    decreases |history|
  {
    history != [] &&
    match history[0]
    case Start => CommitsStray(true, pending, history[1..])
    case Request(r) => CommitsStray(open, pending || (!open && r.ReplaceText?), history[1..])
    case Abort => CommitsStray(false, false, history[1..])
    case Commit => pending || CommitsStray(false, false, history[1..])
  }

  /** The batches all of whose actions are possible, one after the other. */
  function Successful(src: Source, batches: seq<seq<Action>>): seq<Action> {
    if batches == [] then []
    else (if AllPossible(src, batches[0]) then batches[0] else []) + Successful(src, batches[1..])
  }

  lemma {:induction false} CommittedAreSuccessful(src: Source, asked: seq<Action>, history: seq<Event>)
    ensures CommittedActions(src, asked, history) == Successful(src, Batches(src, asked, history))
    decreases |history|
  {
    if history != [] {
      match history[0]
      case Start => CommittedAreSuccessful(src, asked, history[1..]);
      case Request(r) => CommittedAreSuccessful(src, asked + Requested(src, r), history[1..]);
      case Abort => CommittedAreSuccessful(src, [], history[1..]);
      case Commit =>
        CommittedAreSuccessful(src, [], history[1..]);
        var rest := Batches(src, [], history[1..]);
        assert ([asked] + rest)[1..] == rest;
    }
  }

  /** Commits are about what was asked for in their transactions exactly if none
      comes after a `ReplaceText` outside. */
  lemma {:induction false} BatchesAreOwn(src: Source, open: bool, stray: seq<Action>, own: seq<Action>, history: seq<Event>)
    requires LegalFrom(src, open, history) && (!open ==> own == [])
    ensures Batches(src, stray + own, history) == OwnBatches(src, open, own, history) <==>
            !CommitsStray(open, stray != [], history)
    decreases |history|
  {
    if history != [] {
      var rest := history[1..];
      match history[0]
      case Start =>
        BatchesAreOwn(src, true, stray, [], rest);
      case Request(r) =>
        if open {
          Regroup(stray, own, Requested(src, r));
          BatchesAreOwn(src, true, stray, own + Requested(src, r), rest);
        } else {
          assert stray + own + Requested(src, r) == stray + Requested(src, r) + [];
          BatchesAreOwn(src, false, stray + Requested(src, r), [], rest);
        }
      case Abort =>
        BatchesAreOwn(src, false, [], [], rest);
        assert NOTHING + NOTHING == NOTHING;
      case Commit =>
        BatchesAreOwn(src, false, [], [], rest);
        assert NOTHING + NOTHING == NOTHING;
        assert |stray + own| == |stray| + |own| && NOTHING + own == own;
        HeadsAndTails(stray + own, own, Batches(src, [], rest), OwnBatches(src, false, [], rest));
    }
  }

  lemma HeadsAndTails<T>(a: T, b: T, s: seq<T>, t: seq<T>)
    ensures [a] + s == [b] + t <==> a == b && s == t
  {
    if [a] + s == [b] + t {
      assert ([a] + s)[0] == a && ([b] + t)[0] == b;
      assert ([a] + s)[1..] == s && ([b] + t)[1..] == t;
    }
  }

  /** In a history of a fresh engine without such a `ReplaceText`, exactly the
      transactions that could do all they asked for themselves count. */
  lemma OwnTransactionsCount(src: Source, history: seq<Event>)
    requires LegalFrom(src, false, history)
    ensures Batches(src, [], history) == OwnBatches(src, false, [], history) <==> !CommitsStray(false, false, history)
    ensures !CommitsStray(false, false, history) ==>
              CommittedActions(src, [], history) == Successful(src, OwnBatches(src, false, [], history))
  {
    CommittedAreSuccessful(src, [], history);
    BatchesAreOwn(src, false, [], [], history);
    assert NOTHING + NOTHING == NOTHING;
  }

  /** In an empty file, a `ReplaceText` outside a transaction undoes the next one,
      which is possible. */
  lemma StrayUndoesTransaction()
    ensures var src := Source("", i => i, i => false, s => SourceRange(Invalid, Invalid), s => false, s => s);
            var history := [Request(ReplaceText(File(0), "a", "b")), Start, Request(Insert(File(0), "c")), Commit];
            && LegalFrom(src, false, history) && AllPossible(src, [ActInsert(File(0), "c")])
            && OwnBatches(src, false, [], history) == [[ActInsert(File(0), "c")]]
            && CommittedActions(src, [], history) == []
  {
    var src := Source("", i => i, i => false, s => SourceRange(Invalid, Invalid), s => false, s => s);
    var history := [Request(ReplaceText(File(0), "a", "b")), Start, Request(Insert(File(0), "c")), Commit];
    var stray, own := ActReplaceText(File(0), "a", "b"), ActInsert(File(0), "c");
    var inside := history[2..];
    assert history[1..] == [Start] + inside && history[1..][1..] == inside;
    assert inside == [Request(Insert(File(0), "c")), Commit] && inside[1..] == [Commit];
    assert [Commit][1..] == [];
    assert !Can(src, stray) && Can(src, own);
    assert stray in [stray, own] && NOTHING + [stray] + [own] == [stray, own] && NOTHING + [own] == [own];
    assert CommittedActions(src, [stray, own], [Commit]) == [];
    assert OwnBatches(src, true, [own], [Commit]) == [[own]];
    assert OwnBatches(src, true, [], inside) == [[own]];
    assert OwnBatches(src, false, [], history[1..]) == [[own]];
  }

  // ----- The text edits of a whole history -----

  /** All the edits of a list of actions, in order. */
  ghost function EditsOfAll(src: Source, st: State, actions: seq<Action>): seq<Edit>
    requires Committable(src, actions)
    decreases |actions|
  {
    if actions == [] then []
    else
      var front := actions[..|actions| - 1];
      EditsOfAll(src, st, front) +
      EditsOf(src, ApplyActions(src, st, front).stmts, actions[|actions| - 1])
  }

  lemma {:induction false} DocIsEdited(src: Source, st: State, actions: seq<Action>)
    requires Committable(src, actions)
    ensures ApplyActions(src, st, actions).doc == EditModel.ApplyAll(st.doc, EditsOfAll(src, st, actions))
    decreases |actions|
  {
    if actions != [] {
      var front := actions[..|actions| - 1];
      DocIsEdited(src, st, front);
      ApplyAllSplits(st.doc, EditsOfAll(src, st, front),
                     EditsOf(src, ApplyActions(src, st, front).stmts, actions[|actions| - 1]));
    }
  }

  const EMPTY_STATE := State(EMPTY_DOC, {}, [], [])

  ghost function FreshEngine(diags: seq<Diagnostic>): Engine {
    Engine(EMPTY_STATE.(diags := diags), [], false)
  }

  /** The text edits that count in a whole history of a fresh engine. */
  ghost function HistoryEdits(src: Source, diags: seq<Diagnostic>, history: seq<Event>): seq<Edit>
    requires LegalFrom(src, false, history)
  {
    CommittedAreCommittable(src, false, [], history);
    EditsOfAll(src, EMPTY_STATE.(diags := diags), CommittedActions(src, [], history))
  }

  /** What any legal history leaves of the text: a character is deleted exactly
      when a removal of a successful transaction covers it, and the texts at a
      location are the surviving insertions of successful transactions, in
      request order. */
  lemma OutcomeOfHistory(src: Source, diags: seq<Diagnostic>, history: seq<Event>, p: nat)
    requires LegalFrom(src, false, history)
    ensures var edits := HistoryEdits(src, diags, history);
            var doc := Run(src, FreshEngine(diags), history).committed.doc;
            && doc == EditModel.ApplyAll(EMPTY_DOC, edits)
            && (p in doc.deleted <==> DeletedBy(edits, p))
            && doc.TextsAt(p) == SurvivorsAt(edits, p, |edits|)
  {
    CommittedAreCommittable(src, false, [], history);
    var actions := CommittedActions(src, [], history);
    AllOrNothing(src, FreshEngine(diags), [], history);
    DocIsEdited(src, EMPTY_STATE.(diags := diags), actions);
    DeletedExactly(HistoryEdits(src, diags, history), p);
    TextsAreSurvivors(HistoryEdits(src, diags, history), p);
  }

  /** Two engines whose successful transactions removed the same ranges, in any
      order and with any insertions in between, end with the identical list. */
  lemma RemovalOrderIsIrrelevant(src: Source, diags: seq<Diagnostic>, h1: seq<Event>, h2: seq<Event>,
                                 list1: seq<CharRange>, list2: seq<CharRange>)
    requires LegalFrom(src, false, h1) && LegalFrom(src, false, h2)
    requires multiset(RemovedRanges(HistoryEdits(src, diags, h1))) == multiset(RemovedRanges(HistoryEdits(src, diags, h2)))
    requires GapSorted(list1) && CoveredSet(list1) == Run(src, FreshEngine(diags), h1).committed.doc.deleted
    requires GapSorted(list2) && CoveredSet(list2) == Run(src, FreshEngine(diags), h2).committed.doc.deleted
    ensures list1 == list2
  {
    OutcomeOfHistory(src, diags, h1, 0);
    OutcomeOfHistory(src, diags, h2, 0);
    DeletionsCommute(HistoryEdits(src, diags, h1), HistoryEdits(src, diags, h2));
    CanonicalSet(list1, list2);
  }
}
