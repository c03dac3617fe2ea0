/** The calls the engine makes on a rewriter, and the text they stand for when
    every call is read at its own position of the original file. */
module RewriteStream {
  import opened Removals
  import opened Sequences
  import EditModel
  import opened SourceModel

  datatype Rewrite =
    | InsertText(at: nat, text: string)
    | Reindent(range: CharRange, parentIndent: Loc)
    | RemoveText(range: CharRange)

  class RewriteReceiver {
    var stream: seq<Rewrite>

    constructor ()
      ensures stream == []
    {
      stream := [];
    }

    method Receive(r: Rewrite)
      modifies this
      ensures stream == old(stream) + [r]
    {
      stream := stream + [r];
    }
  }

  // ----- Reading a stream -----

  /** The texts a stream puts at p, in the order of the calls. */
  function TextsIn(stream: seq<Rewrite>, p: nat): seq<string> {
    if stream == [] then []
    else (if stream[0].InsertText? && stream[0].at == p then [stream[0].text] else []) + TextsIn(stream[1..], p)
  }

  ghost predicate RemovedIn(stream: seq<Rewrite>, p: nat) {
    exists i :: 0 <= i < |stream| && stream[i].RemoveText? && stream[i].range.Covers(p)
  }

  /** The rewritten file from location p on. */
  ghost function Read(source: string, stream: seq<Rewrite>, p: nat): string
    requires p <= |source|
    decreases |source| - p
  {
    Concat(TextsIn(stream, p)) +
    (if p == |source| then ""
     else (if RemovedIn(stream, p) then "" else [source[p]]) + Read(source, stream, p + 1))
  }

  lemma {:induction false} TextsInConcat(a: seq<Rewrite>, b: seq<Rewrite>, p: nat)
    ensures TextsIn(a + b, p) == TextsIn(a, p) + TextsIn(b, p)
  {
    if a == [] {
      assert a + b == b;
    } else {
      assert (a + b)[1..] == a[1..] + b;
      TextsInConcat(a[1..], b, p);
    }
  }

  // ----- Writing one -----

  ghost function Least(keys: set<nat>): (k: nat)
    requires keys != {}
    ensures IsLeast(k, keys)
  {
    LeastExists(keys);
    var k :| IsLeast(k, keys);
    k
  }

  ghost predicate IsLeast(k: nat, keys: set<nat>) {
    k in keys && forall j :: j in keys ==> k <= j
  }

  lemma {:induction false} LeastExists(keys: set<nat>)
    requires keys != {}
    ensures exists k :: IsLeast(k, keys)
  {
    var x :| x in keys;
    var rest := keys - {x};
    if rest == {} {
      assert IsLeast(x, {x}) && keys == {x};
    } else {
      LeastExists(rest);
      var k :| IsLeast(k, rest);
      assert keys == rest + {x};
      assert IsLeast(if k <= x then k else x, rest + {x});
    }
  }

  method FindLeast(keys: set<nat>) returns (k: nat)
    requires keys != {}
    ensures k == Least(keys)
  {
    k :| k in keys;
    var rest := keys - {k};
    while rest != {}
      invariant rest <= keys && k in keys && forall j :: j in keys && j !in rest ==> k <= j
      decreases |rest|
    {
      var j :| j in rest;
      if j < k {
        k := j;
      }
      rest := rest - {j};
    }
  }

  ghost function TextStream(at: nat, texts: seq<string>): seq<Rewrite> {
    seq(|texts|, i requires 0 <= i < |texts| => InsertText(at, texts[i]))
  }

  /** The insertions at some of the locations, by location. */
  ghost function InsertStream(inserts: map<nat, seq<string>>, keys: set<nat>): seq<Rewrite>
    requires keys <= inserts.Keys
    decreases |keys|
  {
    if keys == {} then []
    else
      var k := Least(keys);
      TextStream(k, inserts[k]) + InsertStream(inserts, keys - {k})
  }

  ghost function ReindentStream(indents: seq<(CharRange, Loc)>): seq<Rewrite> {
    seq(|indents|, i requires 0 <= i < |indents| => Reindent(indents[i].0, indents[i].1))
  }

  ghost function RemoveStream(ranges: seq<CharRange>): seq<Rewrite> {
    seq(|ranges|, i requires 0 <= i < |ranges| => RemoveText(ranges[i]))
  }

  ghost function FullStream(inserts: map<nat, seq<string>>, indents: seq<(CharRange, Loc)>, ranges: seq<CharRange>): seq<Rewrite> {
    InsertStream(inserts, inserts.Keys) + ReindentStream(indents) + RemoveStream(ranges)
  }

  lemma {:induction false} TextStreamTexts(at: nat, texts: seq<string>, p: nat)
    ensures TextsIn(TextStream(at, texts), p) == if p == at then texts else []
  {
    if texts != [] {
      assert TextStream(at, texts)[1..] == TextStream(at, texts[1..]);
      TextStreamTexts(at, texts[1..], p);
    }
  }

  lemma {:induction false} InsertStreamTexts(inserts: map<nat, seq<string>>, keys: set<nat>, p: nat)
    requires keys <= inserts.Keys
    ensures TextsIn(InsertStream(inserts, keys), p) == if p in keys then inserts[p] else []
    ensures forall r :: r in InsertStream(inserts, keys) ==> r.InsertText?
    decreases |keys|
  {
    if keys != {} {
      var k := Least(keys);
      TextStreamTexts(k, inserts[k], p);
      InsertStreamTexts(inserts, keys - {k}, p);
      TextsInConcat(TextStream(k, inserts[k]), InsertStream(inserts, keys - {k}), p);
    }
  }

  lemma {:induction false} NoTexts(stream: seq<Rewrite>, p: nat)
    requires forall r :: r in stream ==> !r.InsertText?
    ensures TextsIn(stream, p) == []
  {
    if stream != [] { NoTexts(stream[1..], p); }
  }

  /** The stream says of every position just what the reference document says. */
  lemma StreamAt(inserts: map<nat, seq<string>>, indents: seq<(CharRange, Loc)>, ranges: seq<CharRange>, p: nat)
    ensures var stream := FullStream(inserts, indents, ranges);
            var doc := EditModel.Doc(CoveredSet(ranges), inserts);
            TextsIn(stream, p) == doc.TextsAt(p) && (RemovedIn(stream, p) <==> p in doc.deleted)
  {
    var a, b, c := InsertStream(inserts, inserts.Keys), ReindentStream(indents), RemoveStream(ranges);
    InsertStreamTexts(inserts, inserts.Keys, p);
    NoTexts(b, p);
    NoTexts(c, p);
    TextsInConcat(a + b, c, p);
    TextsInConcat(a, b, p);
    RemovedInConcat(a + b, c, p);
    RemovedInConcat(a, b, p);
    CoveredSetMembers(ranges, p);
    RemoveStreamRemoves(ranges, p);
    NoRemovals(a, p);
    NoRemovals(b, p);
  }

  lemma NoRemovals(stream: seq<Rewrite>, p: nat)
    requires forall r :: r in stream ==> !r.RemoveText?
    ensures !RemovedIn(stream, p)
  {
    forall i | 0 <= i < |stream| ensures !stream[i].RemoveText? {
      assert stream[i] in stream;
    }
  }

  lemma RemovedInConcat(a: seq<Rewrite>, b: seq<Rewrite>, p: nat)
    ensures RemovedIn(a + b, p) <==> RemovedIn(a, p) || RemovedIn(b, p)
  {
    if RemovedIn(a, p) {
      var i :| 0 <= i < |a| && a[i].RemoveText? && a[i].range.Covers(p);
      assert (a + b)[i] == a[i];
    }
    if RemovedIn(b, p) {
      var i :| 0 <= i < |b| && b[i].RemoveText? && b[i].range.Covers(p);
      assert (a + b)[|a| + i] == b[i];
    }
  }

  lemma RemoveStreamRemoves(ranges: seq<CharRange>, p: nat)
    ensures RemovedIn(RemoveStream(ranges), p) <==> Covered(ranges, p)
  {
    if Covered(ranges, p) {
      var i :| 0 <= i < |ranges| && ranges[i].Covers(p);
      assert RemoveStream(ranges)[i] == RemoveText(ranges[i]);
    }
    if RemovedIn(RemoveStream(ranges), p) {
      var i :| 0 <= i < |ranges| && RemoveStream(ranges)[i].RemoveText? && RemoveStream(ranges)[i].range.Covers(p);
      assert ranges[i].Covers(p);
    }
  }

  // ----- In which order calls are made -----

  /** The ranges a stream indents, in the order of the calls. */
  function IndentedIn(stream: seq<Rewrite>): seq<(CharRange, Loc)> {
    if stream == [] then []
    else (if stream[0].Reindent? then [(stream[0].range, stream[0].parentIndent)] else []) + IndentedIn(stream[1..])
  }

  lemma {:induction false} IndentedInConcat(a: seq<Rewrite>, b: seq<Rewrite>)
    ensures IndentedIn(a + b) == IndentedIn(a) + IndentedIn(b)
  {
    if a == [] {
      assert a + b == b;
    } else {
      assert (a + b)[1..] == a[1..] + b;
      IndentedInConcat(a[1..], b);
    }
  }

  lemma {:induction false} NothingIndented(stream: seq<Rewrite>)
    requires forall r :: r in stream ==> !r.Reindent?
    ensures IndentedIn(stream) == []
  {
    if stream != [] { NothingIndented(stream[1..]); }
  }

  lemma {:induction false} IndentsAreListed(indents: seq<(CharRange, Loc)>)
    ensures IndentedIn(ReindentStream(indents)) == indents
  {
    if indents != [] {
      assert ReindentStream(indents)[1..] == ReindentStream(indents[1..]);
      IndentsAreListed(indents[1..]);
    }
  }

  /** Calls come by kind, and insertions by location. */
  ghost predicate Before(r: Rewrite, t: Rewrite) {
    match r
    case InsertText(at, _) => t.InsertText? ==> at <= t.at
    case Reindent(_, _) => !t.InsertText?
    case RemoveText(_) => t.RemoveText?
  }

  ghost predicate InOrder(stream: seq<Rewrite>) {
    forall i, j :: 0 <= i < j < |stream| ==> Before(stream[i], stream[j])
  }

  lemma OrderConcat(a: seq<Rewrite>, b: seq<Rewrite>)
    requires InOrder(a) && InOrder(b) && forall r, t :: r in a && t in b ==> Before(r, t)
    ensures InOrder(a + b)
  {
    var all := a + b;
    forall i, j | 0 <= i < j < |all| ensures Before(all[i], all[j]) {
      if i < |a| && j >= |a| { assert all[i] in a && all[j] in b; }
    }
  }

  lemma {:induction false} InsertionsInOrder(inserts: map<nat, seq<string>>, keys: set<nat>)
    requires keys <= inserts.Keys
    ensures InOrder(InsertStream(inserts, keys))
    ensures forall r :: r in InsertStream(inserts, keys) ==> r.InsertText? && r.at in keys
    decreases |keys|
  {
    if keys != {} {
      var k := Least(keys);
      InsertionsInOrder(inserts, keys - {k});
      OrderConcat(TextStream(k, inserts[k]), InsertStream(inserts, keys - {k}));
    }
  }

  /** Insertions come first, by location, then the indentations as they are listed,
      then the removals. */
  lemma StreamInOrder(inserts: map<nat, seq<string>>, indents: seq<(CharRange, Loc)>, ranges: seq<CharRange>)
    ensures InOrder(FullStream(inserts, indents, ranges))
    ensures IndentedIn(FullStream(inserts, indents, ranges)) == indents
  {
    var a, b, c := InsertStream(inserts, inserts.Keys), ReindentStream(indents), RemoveStream(ranges);
    InsertionsInOrder(inserts, inserts.Keys);
    OrderConcat(a, b);
    OrderConcat(a + b, c);
    IndentedInConcat(a + b, c);
    IndentedInConcat(a, b);
    IndentsAreListed(indents);
    NothingIndented(a);
    NothingIndented(c);
    NothingMore(indents);
  }

  /** Read positionally, the stream gives the text of the reference document. */
  lemma {:induction false} StreamRenders(source: string, inserts: map<nat, seq<string>>,
                                         indents: seq<(CharRange, Loc)>, ranges: seq<CharRange>, p: nat)
    requires p <= |source|
    ensures Read(source, FullStream(inserts, indents, ranges), p) ==
            EditModel.Render(source, EditModel.Doc(CoveredSet(ranges), inserts), p)
    decreases |source| - p
  {
    StreamAt(inserts, indents, ranges, p);
    if p < |source| {
      StreamRenders(source, inserts, indents, ranges, p + 1);
    }
  }
}
