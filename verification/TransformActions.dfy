/** The migrator's rewrite engine (TransformActions.cpp), with the fields the
    original updates in place. */
module TransformActions {
  import opened Removals
  import EditModel
  import opened SourceModel
  import opened Diagnostics
  import opened TransactionModel
  import opened RewriteStream
  import opened Sequences

  class TransformActionsImpl {
    const src: Source
    const CapturedDiags: CapturedDiagList
    var IsInTransaction: bool
    var CachedActions: seq<Action>
    var Inserts: map<nat, seq<string>>
    var Removals: seq<CharRange>
    var StmtRemovals: set<Stmt>
    var IndentationRanges: seq<(CharRange, Loc)>

    constructor (src: Source, diags: CapturedDiagList)
      ensures this.src == src && CapturedDiags == diags
      ensures Valid() && Abstract() == FreshEngine(diags.List)
    {
      this.src := src;
      CapturedDiags := diags;
      IsInTransaction := false;
      CachedActions := [];
      Inserts := map[];
      Removals := [];
      StmtRemovals := {};
      IndentationRanges := [];
    }

    ghost predicate Valid()
      reads this
    {
      && GapSorted(Removals)
      && (forall a :: a in CachedActions ==> Sane(src, a))
    }

    /** The document as the reference model sees it. */
    ghost function Doc(): EditModel.Doc
      reads this
    {
      EditModel.Doc(CoveredSet(Removals), Inserts)
    }

    ghost function Committed(): State
      reads this, CapturedDiags
    {
      State(Doc(), StmtRemovals, IndentationRanges, CapturedDiags.List)
    }

    ghost function Abstract(): Engine
      reads this, CapturedDiags
    {
      Engine(Committed(), CachedActions, IsInTransaction)
    }

    // ----- Merging edits -----

    method AddInsertion(at: nat, text: string)
      requires GapSorted(Removals)
      modifies this`Inserts
      ensures Doc() == EditModel.Apply(old(Doc()), EditModel.Insertion(at, text))
    {
      if at > 0 {
        BuriedInOneRange(Removals, at);
      }
      var i := |Removals|;
      while i != 0
        invariant 0 <= i <= |Removals|
        invariant forall j :: i <= j < |Removals| ==> !Removals[j].StrictlyContains(at)
      {
        i := i - 1;
        if !(at < Removals[i].end) {
          break;
        }
        if Removals[i].begin < at {
          return;
        }
      }
      Inserts := Inserts[at := (if at in Inserts then Inserts[at] else []) + [text]];
    }

    method AddRemoval(range: CharRange)
      requires GapSorted(Removals) && range.WellFormed()
      modifies this`Inserts, this`Removals
      ensures GapSorted(Removals)
      ensures Doc() == EditModel.Apply(old(Doc()), EditModel.Removal(range))
    {
      if range.begin == range.end {
        assert EditModel.TextsOutside(Inserts, range) == Inserts;
        return;
      }
      Inserts := map p | p in Inserts && !(range.begin < p < range.end) :: Inserts[p];
      assert Inserts == EditModel.TextsOutside(old(Inserts), range);
      MergeRemoval(range);
      MergedSet(old(Removals), range, Removals);
    }

    /** The loop of `AddRemoval`; `i` is the list iterator. */
    method MergeRemoval(range: CharRange)
      requires GapSorted(Removals) && range.begin < range.end
      modifies this`Removals
      ensures Merged(old(Removals), range, Removals)
    {
      var newRange := range;
      var i := |Removals|;
      while i != 0
        invariant 0 <= i <= |Removals|
        invariant Merging(old(Removals), range, Removals, newRange, i)
        decreases i
      {
        var last := Removals[i - 1];
        match newRange.CompareWith(last) {
          case RangeBefore =>
            i := i - 1;
          case RangeAfter =>
            MergeInsert(old(Removals), range, Removals, newRange, i);
            Removals := Removals[..i] + [newRange] + Removals[i..];
            return;
          case RangeContained =>
            MergeContained(old(Removals), range, Removals, newRange, i);
            return;
          case RangeContains =>
            // The original first stretches `last` to newRange.end, takes that
            // end back and then erases `last`.
            MergeAbsorb(old(Removals), range, Removals, newRange, i);
            Removals := Removals[..i - 1] + Removals[i..];
            i := i - 1;
          case RangeExtendsBegin =>
            MergeAbsorb(old(Removals), range, Removals, newRange, i);
            newRange := newRange.(end := last.end);
            Removals := Removals[..i - 1] + Removals[i..];
            i := i - 1;
          case RangeExtendsEnd =>
            MergeExtend(old(Removals), range, Removals, newRange, i);
            Removals := Removals[i - 1 := last.(end := newRange.end)];
            return;
        }
      }
      MergeInsert(old(Removals), range, Removals, newRange, 0);
      assert Removals[..0] + [newRange] + Removals[0..] == [newRange] + Removals;
      Removals := [newRange] + Removals;
    }

    // ----- Committing single actions -----

    method CommitRemove(range: SourceRange)
      requires GapSorted(Removals) && !range.IsInvalid() && Forward(src, range)
      modifies this`Inserts, this`Removals
      ensures GapSorted(Removals)
      ensures Doc() == EditModel.Apply(old(Doc()), EditModel.Removal(TokenRange(src, range)))
      ensures forall p: nat :: p in Doc().deleted <==>
                p in old(Doc()).deleted || range.begin.Expansion() <= p < src.TokenEnd(range.end)
    {
      AddRemoval(TokenRange(src, range));
    }

    method CommitRemoveStmt(stmt: Stmt)
      requires GapSorted(Removals) && Can(src, ActRemoveStmt(stmt)) && Sane(src, ActRemoveStmt(stmt))
      modifies this
      ensures GapSorted(Removals)
      ensures Doc() == EditModel.ApplyAll(old(Doc()), EditsOf(src, old(StmtRemovals), ActRemoveStmt(stmt)))
      ensures StmtRemovals == old(StmtRemovals) + {stmt}
      ensures unchanged(`CachedActions, `IsInTransaction, `IndentationRanges)
    {
      ghost var edits := EditsOf(src, StmtRemovals, ActRemoveStmt(stmt));
      if stmt in StmtRemovals {
        return;
      }
      if src.stmtIsExpr(stmt) {
        CommitRemove(src.stmtRange(stmt));
        AddInsertion(src.stmtRange(stmt).begin.Expansion(), REMOVED_EXPR_MACRO);
        TwoEdits(old(Doc()), edits[0], edits[1]);
      } else {
        CommitRemove(src.stmtRange(stmt));
        OneEdit(old(Doc()), edits[0]);
      }
      StmtRemovals := StmtRemovals + {stmt};
    }

    method CommitReplace(range: SourceRange, replacement: SourceRange)
      requires GapSorted(Removals) && Can(src, ActReplace(range, replacement)) && Sane(src, ActReplace(range, replacement))
      modifies this`Inserts, this`Removals
      ensures GapSorted(Removals)
      ensures Doc() == EditModel.ApplyAll(old(Doc()), ReplaceEdits(src, range, replacement))
    {
      if TokenRange(src, replacement).CompareWith(TokenRange(src, range)) != RangeContained {
        return;
      }
      ReplacedInSteps(src, Doc(), range, replacement);
      if range.begin != replacement.begin {
        AddRemoval(CharRange(range.begin.Expansion(), replacement.begin.Expansion()));
      }
      if replacement.end != range.end {
        AddRemoval(CharRange(src.TokenEnd(replacement.end), src.TokenEnd(range.end)));
      }
    }

    method CommitReplaceText(loc: Loc, text: string, newText: string)
      requires GapSorted(Removals) && !loc.Invalid?
      modifies this`Inserts, this`Removals
      ensures GapSorted(Removals)
      ensures var at := loc.Expansion();
              Doc() == EditModel.Apply(EditModel.Apply(old(Doc()), EditModel.Removal(CharRange(at, at + |text|))),
                                       EditModel.Insertion(at, newText))
    {
      var at := loc.Expansion();
      AddRemoval(CharRange(at, at + |text|));
      AddInsertion(at, newText);
    }

    method CommitAction(act: Action)
      requires Valid() && Can(src, act) && Sane(src, act)
      modifies this, CapturedDiags
      ensures Valid()
      ensures Committed() == Apply(src, old(Committed()), act)
      ensures unchanged(`CachedActions, `IsInTransaction)
    {
      ghost var edits := EditsOf(src, StmtRemovals, act);
      match act {
        case ActInsert(loc, text) =>
          AddInsertion(loc.Expansion(), text);
          OneEdit(old(Doc()), edits[0]);
        case ActInsertAfterToken(loc, text) =>
          AddInsertion(src.TokenEnd(loc), text);
          OneEdit(old(Doc()), edits[0]);
        case ActRemove(range) =>
          CommitRemove(range);
          OneEdit(old(Doc()), edits[0]);
        case ActRemoveStmt(stmt) =>
          CommitRemoveStmt(stmt);
        case ActReplace(range, replacement) =>
          CommitReplace(range, replacement);
        case ActReplaceText(loc, text, newText) =>
          CommitReplaceText(loc, text, newText);
          TwoEdits(old(Doc()), EditModel.Removal(CharRange(loc.Expansion(), loc.Expansion() + |text|)),
                   EditModel.Insertion(loc.Expansion(), newText));
        case ActIncreaseIndentation(range, parentIndent) =>
          IndentationRanges := IndentationRanges + [(TokenRange(src, range), parentIndent.ExpansionLoc())];
        case ActClearDiagnostic(sel) =>
          var _ := CapturedDiags.ClearDiagnostic(sel);
      }
    }

    // ----- Transactions -----

    method StartTransaction()
      requires Valid() && Allowed(src, IsInTransaction, Start)
      modifies this
      ensures Valid() && Abstract() == Step(src, old(Abstract()), Start)
    {
      IsInTransaction := true;
    }

    /** Returns true when the transaction had to be aborted. */
    method CommitTransaction() returns (aborted: bool)
      requires Valid() && Allowed(src, IsInTransaction, Commit)
      modifies this, CapturedDiags
      ensures Valid() && Abstract() == Step(src, old(Abstract()), Commit)
      ensures aborted <==> !AllPossible(src, old(CachedActions))
    {
      if CachedActions == [] {
        IsInTransaction := false;
        return false;
      }
      var allActionsPossible := CheckCached();
      if !allActionsPossible {
        AbortTransaction();
        return true;
      }
      CommitCached();
      CachedActions := [];
      IsInTransaction := false;
      return false;
    }

    /** The first loop of the commit: stops at the first impossible action. */
    method CheckCached() returns (allActionsPossible: bool)
      ensures allActionsPossible <==> AllPossible(src, CachedActions)
    {
      for i := 0 to |CachedActions|
        invariant forall j :: 0 <= j < i ==> Can(src, CachedActions[j])
      {
        if !Can(src, CachedActions[i]) {
          return false;
        }
      }
      return true;
    }

    /** The second loop of the commit. */
    method CommitCached()
      requires Valid() && AllPossible(src, CachedActions)
      modifies this, CapturedDiags
      ensures Valid() && unchanged(`CachedActions, `IsInTransaction)
      ensures Committed() == ApplyActions(src, old(Committed()), CachedActions)
    {
      ghost var acts := CachedActions;
      ghost var before := Committed();
      assert Committable(src, acts);
      for i := 0 to |CachedActions|
        invariant unchanged(`CachedActions, `IsInTransaction) && Valid()
        invariant Committed() == ApplyActions(src, before, acts[..i])
      {
        CommitAction(CachedActions[i]);
        assert acts[..i + 1][..i] == acts[..i];
      }
      assert acts[..|acts|] == acts;
    }

    method AbortTransaction()
      requires Valid() && Allowed(src, IsInTransaction, Abort)
      modifies this
      ensures Valid() && Abstract() == Step(src, old(Abstract()), Abort)
    {
      CachedActions := [];
      IsInTransaction := false;
    }

    /** All the entry points that queue actions. Returns whether a diagnostic to
        clear was found. */
    method Ask(r: Request) returns (found: bool)
      requires Valid() && Allowed(src, IsInTransaction, Event.Request(r))
      modifies this
      ensures Valid() && Abstract() == Step(src, old(Abstract()), Event.Request(r))
      ensures r.ClearDiagnostic? ==> (found <==> Has(CapturedDiags.List, r.sel))
    {
      if r.ClearDiagnostic? {
        found := CapturedDiags.HasDiagnostic(r.sel);
        if !found {
          assert CachedActions + [] == CachedActions;
          return;
        }
      }
      found := true;
      CachedActions := CachedActions + Requested(src, r);
    }

    // ----- Handing over the result -----

    /** Tells the receiver the insertions by location, then the indentations,
        then the removals. */
    method ApplyRewrites(receiver: RewriteReceiver)
      requires Valid() && receiver.stream == []
      modifies receiver
      ensures receiver.stream == FullStream(Inserts, IndentationRanges, Removals)
      ensures Read(src.text, receiver.stream, 0) == EditModel.Render(src.text, Doc(), 0)
    {
      SendInsertions(receiver);
      ghost var inserted := receiver.stream;
      for i := 0 to |IndentationRanges|
        invariant receiver.stream == inserted + ReindentStream(IndentationRanges[..i])
      {
        receiver.Receive(Reindent(IndentationRanges[i].0, IndentationRanges[i].1));
      }
      assert IndentationRanges[..|IndentationRanges|] == IndentationRanges;
      ghost var indented := receiver.stream;
      for i := 0 to |Removals|
        invariant receiver.stream == indented + RemoveStream(Removals[..i])
      {
        receiver.Receive(RemoveText(Removals[i]));
      }
      assert Removals[..|Removals|] == Removals;
      StreamRenders(src.text, Inserts, IndentationRanges, Removals, 0);
    }

    method SendInsertions(receiver: RewriteReceiver)
      requires receiver.stream == []
      modifies receiver
      ensures receiver.stream == InsertStream(Inserts, Inserts.Keys)
    {
      var keys := Inserts.Keys;
      while keys != {}
        invariant keys <= Inserts.Keys
        invariant receiver.stream + InsertStream(Inserts, keys) == InsertStream(Inserts, Inserts.Keys)
        decreases |keys|
      {
        var at := FindLeast(keys);
        Regroup(receiver.stream, TextStream(at, Inserts[at]), InsertStream(Inserts, keys - {at}));
        SendTexts(receiver, at, Inserts[at]);
        keys := keys - {at};
      }
    }

    method SendTexts(receiver: RewriteReceiver, at: nat, texts: seq<string>)
      modifies receiver
      ensures receiver.stream == old(receiver.stream) + TextStream(at, texts)
    {
      for t := 0 to |texts|
        invariant receiver.stream == old(receiver.stream) + TextStream(at, texts[..t])
      {
        receiver.Receive(InsertText(at, texts[t]));
        assert TextStream(at, texts[..t + 1]) == TextStream(at, texts[..t]) + [InsertText(at, texts[t])];
      }
      assert texts[..|texts|] == texts;
    }
  }

  lemma OneEdit(doc: EditModel.Doc, e: EditModel.Edit)
    ensures EditModel.ApplyAll(doc, [e]) == EditModel.Apply(doc, e)
  {
    assert [e][..0] == [];
  }

  lemma TwoEdits(doc: EditModel.Doc, e: EditModel.Edit, f: EditModel.Edit)
    ensures EditModel.ApplyAll(doc, [e, f]) == EditModel.Apply(EditModel.Apply(doc, e), f)
  {
    OneEdit(doc, e);
    assert [e, f][..1] == [e];
  }

  lemma ReplacedInSteps(src: Source, doc: EditModel.Doc, range: SourceRange, replacement: SourceRange)
    requires !range.IsInvalid() && !replacement.IsInvalid()
    requires TokenRange(src, replacement).CompareWith(TokenRange(src, range)).RangeContained?
    ensures var front := CharRange(range.begin.Expansion(), replacement.begin.Expansion());
            var back := CharRange(src.TokenEnd(replacement.end), src.TokenEnd(range.end));
            var mid := if range.begin != replacement.begin then EditModel.Apply(doc, EditModel.Removal(front)) else doc;
            EditModel.ApplyAll(doc, ReplaceEdits(src, range, replacement)) ==
            if replacement.end != range.end then EditModel.Apply(mid, EditModel.Removal(back)) else mid
  {
    var edits := ReplaceEdits(src, range, replacement);
    if |edits| == 2 {
      TwoEdits(doc, edits[0], edits[1]);
    } else if |edits| == 1 {
      OneEdit(doc, edits[0]);
    }
  }

  /** A transaction bound to a scope: it commits when the scope is left, unless
      it was aborted (Internals.h, class Transaction). */
  class Transaction {
    const TA: TransformActionsImpl
    var Aborted: bool

    constructor (ta: TransformActionsImpl)
      requires ta.Valid() && !ta.IsInTransaction
      modifies ta
      ensures TA == ta && !Aborted
      ensures ta.Valid() && ta.Abstract() == Step(ta.src, old(ta.Abstract()), Start)
    {
      TA := ta;
      Aborted := false;
      new;
      ta.StartTransaction();
    }

    method Abort()
      requires TA.Valid() && TA.IsInTransaction
      modifies this, TA
      ensures Aborted
      ensures TA.Valid() && TA.Abstract() == Step(TA.src, old(TA.Abstract()), Event.Abort)
    {
      TA.AbortTransaction();
      Aborted := true;
    }

    method LeaveScope()
      requires TA.Valid() && (!Aborted ==> TA.IsInTransaction)
      modifies TA, TA.CapturedDiags
      ensures TA.Valid()
      ensures TA.Abstract() == if Aborted then old(TA.Abstract()) else Step(TA.src, old(TA.Abstract()), Commit)
    {
      if !Aborted {
        var _ := TA.CommitTransaction();
      }
    }
  }
}
