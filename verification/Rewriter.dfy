/** A rewriter over one file (Rewriter.cpp), as the migrator uses it (ARCMT.cpp,
    class RewritesApplicator). */
module Rewriter {
  import opened Lines
  import opened Removals
  import opened RewriteBuffer
  import opened RewriteStream
  import opened Sequences
  import opened SourceModel
  import opened Wrappers

  // ----- Which calls on the buffer a rewrite stands for -----

  /** The rewrite is about this file. */
  predicate InFile(source: string, r: Rewrite) {
    match r
    case InsertText(at, _) => at <= |source|
    case Reindent(range, parent) =>
      range.begin <= |source| && range.end <= |source| && parent.File? && parent.offset <= |source|
    case RemoveText(range) => range.begin <= |source| && range.end <= |source|
  }

  predicate AllInFile(source: string, stream: seq<Rewrite>) {
    forall i :: 0 <= i < |stream| ==> InFile(source, stream[i])
  }

  /** What the lines of a range are indented by: the white space their first line
      has more than the line of the parent. */
  function IndentOf(source: string, start: nat, parent: nat): string
    requires start <= |source| && parent <= |source|
  {
    var parentSpace, startSpace := Indentation(source, parent), Indentation(source, start);
    if parentSpace <= startSpace then startSpace[|parentSpace|..] else ""
  }

  /** The insertions in front of the lines from the one that starts at `offs` to
      the one that starts at `last`. */
  function IndentLines(source: string, offs: nat, last: nat, startSpace: string, indent: string): seq<Call>
    requires offs <= |source|
    decreases |source| - offs
  {
    if offs > last then []
    else
      (if startSpace <= Indentation(source, offs) then [Put(offs, indent, false)] else []) +
      (if NextLine(source, offs) <= offs then [] else IndentLines(source, NextLine(source, offs), last, startSpace, indent))
  }

  /** Where the next line starts; 0 if there is none. */
  function NextLine(source: string, offs: nat): (next: nat)
    requires offs <= |source|
    ensures next <= |source|
    ensures next == 0 || next > offs
    ensures next > offs ==> source[next - 1] == '\n' && forall k :: offs <= k < next - 1 ==> source[k] != '\n'
    ensures next <= offs ==> forall k :: offs <= k < |source| ==> source[k] != '\n'
    decreases |source| - offs
  {
    if offs == |source| then 0 else if source[offs] == '\n' then offs + 1 else NextLine(source, offs + 1)
  }

  function CallsOf(source: string, r: Rewrite): seq<Call>
    requires InFile(source, r)
  {
    match r
    case InsertText(at, text) => [Put(at, Indented(text, Indentation(source, at)), true)]
    case Reindent(range, parent) =>
      var indent := IndentOf(source, range.begin, parent.offset);
      if range.begin > range.end || indent == "" then []
      else IndentLines(source, LineStart(source, range.begin), LineStart(source, range.end),
                       Indentation(source, range.begin), indent)
    case RemoveText(range) => [Cut(range)]
  }

  function CallsOfAll(source: string, stream: seq<Rewrite>): seq<Call>
    requires AllInFile(source, stream)
  {
    if stream == [] then []
    else CallsOfAll(source, stream[..|stream| - 1]) + CallsOf(source, stream[|stream| - 1])
  }

  lemma CallsAppended(source: string, stream: seq<Rewrite>, r: Rewrite)
    requires AllInFile(source, stream) && InFile(source, r)
    ensures CallsOfAll(source, stream + [r]) == CallsOfAll(source, stream) + CallsOf(source, r)
  {
    assert (stream + [r])[..|stream|] == stream && (stream + [r])[|stream|] == r;
  }

  lemma {:induction false} CallsOfConcat(source: string, a: seq<Rewrite>, b: seq<Rewrite>)
    requires AllInFile(source, a) && AllInFile(source, b)
    ensures CallsOfAll(source, a + b) == CallsOfAll(source, a) + CallsOfAll(source, b)
  {
    if b == [] {
      assert a + b == a;
    } else {
      var front, last := b[..|b| - 1], b[|b| - 1];
      CallsOfConcat(source, a, front);
      CallsAppended(source, a + front, last);
      CallsAppended(source, front, last);
      LastApart(b);
      Regroup(a, front, [last]);
      Regroup(CallsOfAll(source, a), CallsOfAll(source, front), CallsOf(source, last));
    }
  }

  // ----- The rewriter -----

  class Rewriter {
    /** The file as it was. */
    const MB: string
    const RB: RewriteBuffer

    constructor (source: string)
      ensures MB == source && fresh(RB) && RB.Value() == Buf(source, [])
    {
      MB := source;
      RB := new RewriteBuffer(source);
    }

    method InsertText(at: nat, text: string)
      requires at <= |MB| && After(RB.Value(), Put(at, Indented(text, Indentation(MB, at)), true)).Some?
      modifies RB
      ensures Some(RB.Value()) == After(old(RB.Value()), Put(at, Indented(text, Indentation(MB, at)), true))
    {
      var indentSpace := Indentation(MB, at);
      IndentingAdds(text, indentSpace);
      var str := text;
      if '\n' in text {
        str := IndentNewLines(text, indentSpace);
      }
      RB.InsertText(at, str, true);
    }

    method RemoveText(range: CharRange)
      requires After(RB.Value(), Cut(range)).Some?
      modifies RB
      ensures Some(RB.Value()) == After(old(RB.Value()), Cut(range))
    {
      RB.RemoveText(range.begin, RB.Value().RangeSize(range), true);
    }

    method IncreaseIndentation(range: CharRange, parent: nat)
      requires InFile(MB, Reindent(range, File(parent)))
      requires AfterAll(RB.Value(), CallsOf(MB, Reindent(range, File(parent)))).Some?
      modifies RB
      ensures Some(RB.Value()) == AfterAll(old(RB.Value()), CallsOf(MB, Reindent(range, File(parent))))
    {
      if range.begin > range.end {
        return;
      }
      var parentSpace, startSpace := Indentation(MB, parent), Indentation(MB, range.begin);
      if |parentSpace| >= |startSpace| || !(parentSpace <= startSpace) {
        assert IndentOf(MB, range.begin, parent) == "";
        return;
      }
      var indent := startSpace[|parentSpace|..];
      var offs, last := LineStart(MB, range.begin), LineStart(MB, range.end);
      ghost var was := RB.Value();
      while true
        invariant offs <= |MB|
        invariant AfterAll(RB.Value(), IndentLines(MB, offs, last, startSpace, indent)) ==
                  AfterAll(was, CallsOf(MB, Reindent(range, File(parent))))
        decreases |MB| - offs
      {
        if offs > last {
          return;
        }
        var next := NextLine(MB, offs);
        ghost var here := if startSpace <= Indentation(MB, offs) then [Put(offs, indent, false)] else [];
        ghost var rest := if next <= offs then [] else IndentLines(MB, next, last, startSpace, indent);
        AfterAllSplits(RB.Value(), here, rest);
        if startSpace <= Indentation(MB, offs) {
          assert here[1..] == [];
          RB.InsertText(offs, indent, false);
        }
        if next <= offs {
          return;
        }
        offs := next;
      }
    }

    method Apply(r: Rewrite)
      requires InFile(MB, r) && AfterAll(RB.Value(), CallsOf(MB, r)).Some?
      modifies RB
      ensures Some(RB.Value()) == AfterAll(old(RB.Value()), CallsOf(MB, r))
    {
      match r
      case InsertText(at, text) =>
        assert CallsOf(MB, r)[1..] == [];
        InsertText(at, text);
      case Reindent(range, parent) =>
        IncreaseIndentation(range, parent.offset);
      case RemoveText(range) =>
        assert CallsOf(MB, r)[1..] == [];
        RemoveText(range);
    }
  }

  /** The buffer after the first n calls of a stream. */
  function AfterStream(source: string, stream: seq<Rewrite>, n: nat): Option<Buf>
    requires n <= |stream| && AllInFile(source, stream)
  {
    AfterAll(Buf(source, []), CallsOfAll(source, stream[..n]))
  }

  lemma AfterNext(source: string, stream: seq<Rewrite>, i: nat)
    requires i < |stream| && AllInFile(source, stream)
    ensures InFile(source, stream[i])
    ensures var b := AfterStream(source, stream, i);
            AfterStream(source, stream, i + 1) == if b.None? then None else AfterAll(b.value, CallsOf(source, stream[i]))
  {
    var upto := stream[..i + 1];
    assert upto[..|upto| - 1] == stream[..i] && upto[|upto| - 1] == stream[i];
    AfterAllSplits(Buf(source, []), CallsOfAll(source, stream[..i]), CallsOf(source, stream[i]));
  }

  lemma {:induction false} FailsForGood(source: string, stream: seq<Rewrite>, i: nat, n: nat)
    requires i <= n <= |stream| && AllInFile(source, stream)
    requires AfterStream(source, stream, i).None?
    ensures AfterStream(source, stream, n).None?
    decreases n - i
  {
    if i < n {
      AfterNext(source, stream, i);
      FailsForGood(source, stream, i + 1, n);
    }
  }

  /** Sends a stream through a rewriter. None is a call that is not valid: the
      range it looks up is negative, or reaches behind the end of the buffer. */
  method ApplyStream(source: string, stream: seq<Rewrite>) returns (text: Option<string>)
    requires AllInFile(source, stream)
    ensures var b := AfterStream(source, stream, |stream|);
            text == if b.None? then None else Some(b.value.text)
  {
    var rewriter := new Rewriter(source);
    for i := 0 to |stream|
      invariant fresh(rewriter) && fresh(rewriter.RB) && rewriter.MB == source
      invariant Some(rewriter.RB.Value()) == AfterStream(source, stream, i)
    {
      AfterNext(source, stream, i);
      if AfterAll(rewriter.RB.Value(), CallsOf(source, stream[i])).None? {
        FailsForGood(source, stream, i + 1, |stream|);
        return None;
      }
      rewriter.Apply(stream[i]);
    }
    return Some(rewriter.RB.Buffer);
  }
}
