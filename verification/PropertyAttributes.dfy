/** Editing the attribute list of an @property declaration, token by token
    (Transforms.cpp, rewritePropertyAttribute and addPropertyAttribute). */
module PropertyAttributes {
  import opened Sequences
  import opened Wrappers

  datatype Token =
    | At
    | LParen
    | RParen
    | Comma
    | Identifier(name: string)
    | Other(text: string)
    | Eof

  /** What is asked of the rewrite engine. */
  datatype Edit =
    | NoEdit
    | RemoveTokens(first: nat, last: nat)
    | RenameToken(index: nat, newName: string)
    | InsertTokens(before: nat, tokens: seq<Token>)
  {
    predicate Fits(tokens: seq<Token>) {
      match this
      case NoEdit => true
      case RemoveTokens(first, last) => first <= last < |tokens|
      case RenameToken(index, _) => index < |tokens|
      case InsertTokens(before, _) => before <= |tokens|
    }

    function ApplyTo(input: seq<Token>): seq<Token>
      requires Fits(input)
    {
      match this
      case NoEdit => input
      case RemoveTokens(first, last) => input[..first] + input[last + 1..]
      case RenameToken(index, newName) => input[index := Identifier(newName)]
      case InsertTokens(before, tokens) => input[..before] + tokens + input[before..]
    }
  }

  /** The raw lexer; at the end of the file it answers Eof forever. */
  function Lex(tokens: seq<Token>, pos: nat): Token {
    if pos < |tokens| then tokens[pos] else Eof
  }

  const KEYWORD := Identifier("property")

  const PROPERTY := [At, KEYWORD]

  // ----- Lexing that never ends -----

  predicate Separates(t: Token) { t == Comma || t == RParen }

  /** The first comma or closing parenthesis from p on; behind the last token
      there is none. */
  function NextSeparator(tokens: seq<Token>, p: nat): (q: nat)
    ensures p <= q && forall j :: p <= j < q && j < |tokens| ==> !Separates(tokens[j])
    ensures q < |tokens| ==> Separates(tokens[q])
    decreases |tokens| - p
  {
    if p < |tokens| && !Separates(tokens[p]) then NextSeparator(tokens, p + 1) else p
  }

  /** From the attribute at pos on, the loop comes to an attribute that is never
      separated from anything: its value is lexed for ever. */
  predicate LexesForever(tokens: seq<Token>, from: string, to: string, pos: nat)
    decreases |tokens| - pos
  {
    Lex(tokens, pos).Identifier? && !(Lex(tokens, pos).name == from && to != "") &&
    var q := NextSeparator(tokens, pos + 1);
    q >= |tokens| || (tokens[q] == Comma && LexesForever(tokens, from, to, q + 1))
  }

  /** The token lists on which the original does not end. */
  predicate RunsIntoEof(tokens: seq<Token>, from: string, to: string) {
    && Lex(tokens, 0) == At && Lex(tokens, 1) == KEYWORD && Lex(tokens, 2) == LParen
    && LexesForever(tokens, from, to, 3)
  }

  /** What lexing for ever is: from some token on there is no separator at all. */
  lemma {:induction false} StuckBehind(tokens: seq<Token>, from: string, to: string, pos: nat) returns (p: nat)
    requires LexesForever(tokens, from, to, pos)
    ensures p > pos && forall n: nat :: n >= p ==> !Separates(Lex(tokens, n))
    decreases |tokens| - pos
  {
    var q := NextSeparator(tokens, pos + 1);
    if q >= |tokens| {
      p := pos + 1;
      forall n: nat | n >= p ensures !Separates(Lex(tokens, n)) {
        assert n < |tokens| ==> !Separates(tokens[n]);
      }
    } else {
      p := StuckBehind(tokens, from, to, q + 1);
    }
  }

  /** A list that is closed is lexed to its end. */
  lemma {:induction false} ClosedEnds(tokens: seq<Token>, from: string, to: string, pos: nat, r: nat)
    requires pos <= r < |tokens| && tokens[r] == RParen
    ensures !LexesForever(tokens, from, to, pos)
    decreases |tokens| - pos
  {
    if Lex(tokens, pos).Identifier? {
      var q := NextSeparator(tokens, pos + 1);
      assert q <= r;
      if tokens[q] == Comma { ClosedEnds(tokens, from, to, q + 1, r); }
    }
  }

  /** An unclosed list ends the loop when an attribute does not start with a
      name, and keeps it going otherwise. */
  lemma UnclosedLists(from: string, to: string)
    ensures !RunsIntoEof([At, KEYWORD, LParen, Comma], from, to)
    ensures from != "a" ==> RunsIntoEof([At, KEYWORD, LParen, Identifier("a")], from, to)
  {
    var tokens := [At, KEYWORD, LParen, Identifier("a")];
    assert NextSeparator(tokens, 4) == 4;
  }

  // ----- Well-formed attribute lists -----

  datatype Attr = Attr(name: string, value: seq<Token>) {
    /** A value, like that of `getter=f`, stops at the next comma or parenthesis. */
    predicate WellFormed() {
      forall t :: t in value ==> !Separates(t)
    }

    function Tokens(): seq<Token> { [Identifier(name)] + value }
  }

  ghost predicate WellFormed(attrs: seq<Attr>) {
    forall a :: a in attrs ==> a.WellFormed()
  }

  /** The file from the first attribute on. */
  function ListFrom(attrs: seq<Attr>, rest: seq<Token>): seq<Token>
    requires attrs != []
  {
    attrs[0].Tokens() + if |attrs| == 1 then [RParen] + rest else [Comma] + ListFrom(attrs[1..], rest)
  }

  /** A declaration with the given attributes; no parentheses without any. */
  function Property(attrs: seq<Attr>, rest: seq<Token>): seq<Token> {
    PROPERTY + if attrs == [] then rest else [LParen] + ListFrom(attrs, rest)
  }

  ghost predicate OnlyAt(attrs: seq<Attr>, name: string, k: nat) {
    k < |attrs| && attrs[k].name == name && forall j :: 0 <= j < |attrs| && j != k ==> attrs[j].name != name
  }

  /** Where the attribute k is, counted from the first. */
  function Offset(attrs: seq<Attr>, k: nat): nat
    requires k <= |attrs|
  {
    if k == 0 then 0 else |attrs[0].value| + 2 + Offset(attrs[1..], k - 1)
  }

  /** Where the attribute k is in the declaration. */
  function Start(attrs: seq<Attr>, k: nat): nat
    requires k <= |attrs|
  {
    3 + Offset(attrs, k)
  }

  lemma {:induction false} NextOffset(attrs: seq<Attr>, k: nat)
    requires k < |attrs|
    ensures Offset(attrs, k + 1) == Offset(attrs, k) + |attrs[k].value| + 2
  {
    if k > 0 { NextOffset(attrs[1..], k - 1); }
  }

  /** What the tokens of an attribute look like from p on. */
  ghost predicate AttrAt(tokens: seq<Token>, p: nat, a: Attr, last: bool) {
    && p + 1 + |a.value| < |tokens|
    && tokens[p] == Identifier(a.name)
    && (forall j :: p < j <= p + |a.value| ==> tokens[j] == a.value[j - p - 1])
    && tokens[p + 1 + |a.value|] == if last then RParen else Comma
  }

  lemma AttrAtShifted(front: seq<Token>, tokens: seq<Token>, p: nat, a: Attr, last: bool)
    requires AttrAt(tokens, p, a, last)
    ensures AttrAt(front + tokens, |front| + p, a, last)
  {
    var all, q := front + tokens, |front| + p;
    forall j | q < j <= q + |a.value| ensures all[j] == a.value[j - q - 1] {
      assert all[j] == tokens[j - |front|];
    }
  }

  lemma FirstAttrAt(a: Attr, tail: seq<Token>, last: bool)
    requires tail != [] && tail[0] == if last then RParen else Comma
    ensures AttrAt(a.Tokens() + tail, 0, a, last)
  {
  }

  lemma {:induction false} ListAt(attrs: seq<Attr>, rest: seq<Token>, k: nat)
    requires k < |attrs|
    ensures AttrAt(ListFrom(attrs, rest), Offset(attrs, k), attrs[k], k == |attrs| - 1)
  {
    if k > 0 {
      var front, back := attrs[0].Tokens() + [Comma], ListFrom(attrs[1..], rest);
      ListAt(attrs[1..], rest, k - 1);
      assert attrs[1..][k - 1] == attrs[k];
      AttrAtShifted(front, back, Offset(attrs[1..], k - 1), attrs[k], k == |attrs| - 1);
      ListSplits(attrs, rest);
      assert |front| + Offset(attrs[1..], k - 1) == Offset(attrs, k);
    } else {
      FirstAttrAt(attrs[0], if |attrs| == 1 then [RParen] + rest else [Comma] + ListFrom(attrs[1..], rest), |attrs| == 1);
    }
  }

  lemma ListSplits(attrs: seq<Attr>, rest: seq<Token>)
    requires |attrs| > 1
    ensures ListFrom(attrs, rest) == attrs[0].Tokens() + [Comma] + ListFrom(attrs[1..], rest)
    ensures ListFrom(attrs, rest) == attrs[0].Tokens() + ([Comma] + ListFrom(attrs[1..], rest))
  {
    var a, b, c := attrs[0].Tokens(), [Comma], ListFrom(attrs[1..], rest);
    assert a + (b + c) == a + b + c;
  }

  lemma PropertySplits(attrs: seq<Attr>, rest: seq<Token>)
    requires attrs != []
    ensures Property(attrs, rest) == PROPERTY + [LParen] + ListFrom(attrs, rest)
  {
  }

  /** The tokens of every attribute are where they should be. */
  lemma PropertyAt(attrs: seq<Attr>, rest: seq<Token>, k: nat)
    requires k < |attrs|
    ensures AttrAt(Property(attrs, rest), Start(attrs, k), attrs[k], k == |attrs| - 1)
  {
    ListAt(attrs, rest, k);
    AttrAtShifted(PROPERTY + [LParen], ListFrom(attrs, rest), Offset(attrs, k), attrs[k], k == |attrs| - 1);
    PropertySplits(attrs, rest);
  }

  lemma SeparatorBefore(attrs: seq<Attr>, rest: seq<Token>, k: nat)
    requires k < |attrs|
    ensures Lex(Property(attrs, rest), Start(attrs, k) - 1) == if k == 0 then LParen else Comma
  {
    if k > 0 {
      PropertyAt(attrs, rest, k - 1);
      NextOffset(attrs, k - 1);
    }
  }

  // ----- Editing a list -----

  lemma {:induction false} ListRenamed(attrs: seq<Attr>, rest: seq<Token>, k: nat, newName: string)
    requires k < |attrs|
    ensures Offset(attrs, k) < |ListFrom(attrs, rest)|
    ensures ListFrom(attrs[k := attrs[k].(name := newName)], rest) ==
            ListFrom(attrs, rest)[Offset(attrs, k) := Identifier(newName)]
  {
    ListAt(attrs, rest, k);
    var renamed := attrs[k := attrs[k].(name := newName)];
    if k == 0 {
      assert renamed[1..] == attrs[1..];
      HeadRenamed(attrs[0], if |attrs| == 1 then [RParen] + rest else [Comma] + ListFrom(attrs[1..], rest), newName);
    } else {
      var front, back := attrs[0].Tokens() + [Comma], attrs[1..];
      assert renamed[0] == attrs[0] && renamed[1..] == back[k - 1 := back[k - 1].(name := newName)];
      ListRenamed(back, rest, k - 1, newName);
      UpdateShifted(front, ListFrom(back, rest), Offset(back, k - 1), Identifier(newName));
      ListSplits(attrs, rest);
      ListSplits(renamed, rest);
    }
  }

  lemma HeadRenamed(a: Attr, tail: seq<Token>, newName: string)
    ensures (a.Tokens() + tail)[0 := Identifier(newName)] == a.(name := newName).Tokens() + tail
  {
  }

  lemma UpdateShifted(front: seq<Token>, tokens: seq<Token>, p: nat, t: Token)
    requires p < |tokens|
    ensures (front + tokens)[|front| + p := t] == front + tokens[p := t]
  {
  }

  lemma RenamedAt(attrs: seq<Attr>, rest: seq<Token>, k: nat, newName: string)
    requires k < |attrs|
    ensures Start(attrs, k) < |Property(attrs, rest)|
    ensures Property(attrs, rest)[Start(attrs, k) := Identifier(newName)] ==
            Property(attrs[k := attrs[k].(name := newName)], rest)
  {
    ListRenamed(attrs, rest, k, newName);
    PropertySplits(attrs, rest);
    PropertySplits(attrs[k := attrs[k].(name := newName)], rest);
  }

  /** All but the tokens at p and behind it. */
  function Cut(tokens: seq<Token>, p: nat): seq<Token>
    requires p + 2 <= |tokens|
  {
    tokens[..p] + tokens[p + 2..]
  }

  lemma CutShifted(front: seq<Token>, tokens: seq<Token>, p: nat)
    requires p + 2 <= |tokens|
    ensures Cut(front + tokens, |front| + p) == front + Cut(tokens, p)
  {
  }

  lemma SecondWithout(attrs: seq<Attr>, rest: seq<Token>)
    requires |attrs| > 1 && attrs[1].value == []
    ensures Offset(attrs, 1) == |attrs[0].value| + 2
    ensures |ListFrom(attrs, rest)| > Offset(attrs, 1)
    ensures ListFrom(Without(attrs, 1), rest) == Cut(ListFrom(attrs, rest), Offset(attrs, 1) - 1)
  {
    var first, tail := attrs[0].Tokens(), attrs[1..];
    var behind := if |tail| == 1 then [RParen] + rest else [Comma] + ListFrom(tail[1..], rest);
    ListSplits(attrs, rest);
    assert Offset(tail, 0) == 0;
    assert [Comma] + ListFrom(tail, rest) == [Comma, Identifier(attrs[1].name)] + behind;
    CutShifted(first, [Comma] + ListFrom(tail, rest), 0);
    assert Cut([Comma, Identifier(attrs[1].name)] + behind, 0) == behind;
    var others := Without(attrs, 1);
    assert others[0] == attrs[0] && others[1..] == tail[1..];
    assert ListFrom(others, rest) == first + behind;
  }

  /** A later attribute goes with the comma in front of it. */
  lemma {:induction false} ListWithout(attrs: seq<Attr>, rest: seq<Token>, k: nat)
    requires 0 < k < |attrs| && attrs[k].value == []
    ensures 0 < Offset(attrs, k) < |ListFrom(attrs, rest)|
    ensures ListFrom(Without(attrs, k), rest) == Cut(ListFrom(attrs, rest), Offset(attrs, k) - 1)
  {
    if k == 1 {
      SecondWithout(attrs, rest);
    } else {
      var others, front, tail := Without(attrs, k), attrs[0].Tokens() + [Comma], attrs[1..];
      assert others[0] == attrs[0] && others[1..] == Without(tail, k - 1);
      ListWithout(tail, rest, k - 1);
      CutShifted(front, ListFrom(tail, rest), Offset(tail, k - 1) - 1);
      ListSplits(attrs, rest);
      ListSplits(others, rest);
    }
  }

  lemma LaterRemoved(attrs: seq<Attr>, rest: seq<Token>, k: nat)
    requires 0 < k < |attrs| && attrs[k].value == []
    ensures Start(attrs, k) < |Property(attrs, rest)|
    ensures Cut(Property(attrs, rest), Start(attrs, k) - 1) == Property(Without(attrs, k), rest)
  {
    ListWithout(attrs, rest, k);
    CutShifted(PROPERTY + [LParen], ListFrom(attrs, rest), Offset(attrs, k) - 1);
    PropertySplits(attrs, rest);
    PropertySplits(Without(attrs, k), rest);
  }

  /** The first attribute goes with the comma behind it. */
  lemma FirstRemoved(attrs: seq<Attr>, rest: seq<Token>)
    requires |attrs| > 1 && attrs[0].value == []
    ensures |Property(attrs, rest)| > 4
    ensures Cut(Property(attrs, rest), 3) == Property(Without(attrs, 0), rest)
  {
    var others, name := attrs[1..], [Identifier(attrs[0].name), Comma];
    assert Without(attrs, 0) == others;
    ListSplits(attrs, rest);
    assert ListFrom(attrs, rest) == name + ListFrom(others, rest);
    CutShifted(PROPERTY + [LParen], ListFrom(attrs, rest), 0);
    PropertySplits(attrs, rest);
    PropertySplits(others, rest);
  }

  /** The only attribute goes with the parentheses. */
  lemma OnlyRemoved(attrs: seq<Attr>, rest: seq<Token>)
    requires |attrs| == 1 && attrs[0].value == []
    ensures var tokens := Property(attrs, rest);
            |tokens| > 4 && tokens[..2] + tokens[5..] == Property([], rest)
  {
    assert ListFrom(attrs, rest) == [Identifier(attrs[0].name), RParen] + rest;
  }

  /** The length of a list, with a separator behind every attribute. */
  function Size(attrs: seq<Attr>): nat {
    if attrs == [] then 0 else |attrs[0].value| + 2 + Size(attrs[1..])
  }

  lemma {:induction false} ListLength(attrs: seq<Attr>, rest: seq<Token>)
    requires attrs != []
    ensures |ListFrom(attrs, rest)| == Size(attrs) + |rest|
  {
    if |attrs| > 1 { ListLength(attrs[1..], rest); } else { assert attrs[1..] == []; }
  }

  lemma {:induction false} SizeWithout(attrs: seq<Attr>, k: nat)
    requires k < |attrs|
    ensures Size(attrs) == Size(Without(attrs, k)) + |attrs[k].value| + 2
  {
    var others := Without(attrs, k);
    if k == 0 {
      assert others == attrs[1..];
    } else {
      assert others[1..] == Without(attrs[1..], k - 1);
      SizeWithout(attrs[1..], k - 1);
    }
  }

  lemma LengthWithout(attrs: seq<Attr>, rest: seq<Token>, k: nat)
    requires k < |attrs|
    ensures |Property(attrs, rest)| >= |Property(Without(attrs, k), rest)| + 2 + |attrs[k].value|
  {
    var others := Without(attrs, k);
    ListLength(attrs, rest);
    SizeWithout(attrs, k);
    if others != [] { ListLength(others, rest); }
  }

  // ----- What a rewrite should do -----

  /** The list starts with the attribute, without a value, and has it again. */
  ghost predicate RepeatedFirst(attrs: seq<Attr>, from: string) {
    && |attrs| > 1 && attrs[0].name == from && attrs[0].value == []
    && exists j :: 0 < j < |attrs| && attrs[j].name == from
  }

  /** What is to happen to a declaration with a well-formed list: something is
      done exactly when the attribute is there; the tokens to change make sense
      unless a first attribute to be removed is repeated; an attribute that
      occurs once is renamed; and to remove it leaves just the other attributes
      exactly when it has no value. */
  ghost predicate Outcome(attrs: seq<Attr>, rest: seq<Token>, from: string, to: string, ok: bool, edit: Edit) {
    var tokens := Property(attrs, rest);
    && (ok <==> exists a :: a in attrs && a.name == from)
    && (edit.Fits(tokens) <==> !(to == "" && RepeatedFirst(attrs, from)))
    && (forall k: nat :: OnlyAt(attrs, from, k) ==>
          if to != "" then
            edit.Fits(tokens) && edit.ApplyTo(tokens) == Property(attrs[k := attrs[k].(name := to)], rest)
          else LeavesTheOthers(attrs, rest, k, edit))
  }

  /** The edit leaves just the attributes other than k if that has no value, and
      something else if it has. */
  ghost predicate LeavesTheOthers(attrs: seq<Attr>, rest: seq<Token>, k: nat, edit: Edit)
    requires k < |attrs|
  {
    var tokens := Property(attrs, rest);
    edit.Fits(tokens) && (edit.ApplyTo(tokens) == Property(Without(attrs, k), rest) <==> attrs[k].value == [])
  }

  /** Two tokens are too few for an attribute with a value. */
  lemma ValueStays(attrs: seq<Attr>, rest: seq<Token>, k: nat)
    requires k < |attrs| && attrs[k].value != []
    ensures LeavesTheOthers(attrs, rest, k, RemoveTokens(Start(attrs, k) - 1, Start(attrs, k)))
  {
    PropertyAt(attrs, rest, k);
    LengthWithout(attrs, rest, k);
  }

  function ChooseRemoval(tokens: seq<Token>, beforeTok: nat, attrLoc: nat, afterTok: nat): Edit {
    if Lex(tokens, beforeTok) == LParen && Lex(tokens, afterTok) == RParen then RemoveTokens(beforeTok, afterTok)
    else if Lex(tokens, beforeTok) == LParen && Lex(tokens, afterTok) == Comma then RemoveTokens(attrLoc, afterTok)
    else RemoveTokens(beforeTok, attrLoc)
  }

  /** The tokens chosen for removal make a forward range unless the first
      attribute is repeated, and are the right ones if the attribute occurs
      once and has no value. The attribute is first at k and last at `last`. */
  lemma ChosenRemoval(attrs: seq<Attr>, rest: seq<Token>, from: string, k: nat, last: nat)
    requires k <= last < |attrs| && attrs[k].name == attrs[last].name == from && WellFormed(attrs)
    requires forall j :: 0 <= j < k ==> attrs[j].name != from
    requires forall j :: last < j < |attrs| ==> attrs[j].name != from
    ensures var tokens, at := Property(attrs, rest), Start(attrs, k);
            var edit := ChooseRemoval(tokens, at - 1, Start(attrs, last), at + 1);
            && (edit.Fits(tokens) <==> !RepeatedFirst(attrs, from))
            && (OnlyAt(attrs, from, k) ==> LeavesTheOthers(attrs, rest, k, edit))
  {
    PropertyAt(attrs, rest, last);
    SeparatorBefore(attrs, rest, k);
    if k < last { OffsetGrows(attrs, k, last); }
    TokenBehind(attrs, rest, k);
    if k == 0 { ChosenFirst(attrs, rest, from, last); } else { ChosenLater(attrs, rest, from, k, last); }
  }

  lemma ChosenLater(attrs: seq<Attr>, rest: seq<Token>, from: string, k: nat, last: nat)
    requires 0 < k <= last < |attrs| && attrs[last].name == from && attrs[0].name != from
    requires k < last ==> Start(attrs, k) < Start(attrs, last)
    requires Start(attrs, last) < |Property(attrs, rest)| && Lex(Property(attrs, rest), Start(attrs, k) - 1) == Comma
    ensures var tokens, at := Property(attrs, rest), Start(attrs, k);
            var edit := ChooseRemoval(tokens, at - 1, Start(attrs, last), at + 1);
            && edit.Fits(tokens) && !RepeatedFirst(attrs, from)
            && (OnlyAt(attrs, from, k) ==> LeavesTheOthers(attrs, rest, k, edit))
  {
    if attrs[k].value == [] {
      LaterRemoved(attrs, rest, k);
    } else {
      ValueStays(attrs, rest, k);
    }
  }

  lemma {:induction false} OffsetGrows(attrs: seq<Attr>, i: nat, j: nat)
    requires i < j < |attrs|
    ensures Offset(attrs, i) + 2 <= Offset(attrs, j)
    decreases j
  {
    NextOffset(attrs, j - 1);
    if i < j - 1 { OffsetGrows(attrs, i, j - 1); }
  }

  /** The token behind an attribute's name separates it unless it has a value. */
  lemma TokenBehind(attrs: seq<Attr>, rest: seq<Token>, k: nat)
    requires k < |attrs| && WellFormed(attrs)
    ensures var t := Lex(Property(attrs, rest), Start(attrs, k) + 1);
            if attrs[k].value != [] then !Separates(t) else t == if k == |attrs| - 1 then RParen else Comma
  {
    PropertyAt(attrs, rest, k);
    var tokens, p, value := Property(attrs, rest), Start(attrs, k), attrs[k].value;
    if value != [] {
      assert attrs[k] in attrs && value[0] in value;
      assert tokens[p + 1] == value[0];
    }
  }

  lemma ChosenFirst(attrs: seq<Attr>, rest: seq<Token>, from: string, last: nat)
    requires last < |attrs| && attrs[0].name == attrs[last].name == from && WellFormed(attrs)
    requires last > 0 ==> Start(attrs, last) >= 5
    requires Start(attrs, last) < |Property(attrs, rest)| && Lex(Property(attrs, rest), 2) == LParen
    requires forall j :: last < j < |attrs| ==> attrs[j].name != from
    ensures var tokens := Property(attrs, rest);
            var edit := ChooseRemoval(tokens, 2, Start(attrs, last), 4);
            && (edit.Fits(tokens) <==> !RepeatedFirst(attrs, from))
            && (OnlyAt(attrs, from, 0) ==> LeavesTheOthers(attrs, rest, 0, edit))
  {
    TokenBehind(attrs, rest, 0);
    PropertyAt(attrs, rest, 0);
    if attrs[0].value != [] {
      ValueStays(attrs, rest, 0);
    } else if |attrs| == 1 {
      OnlyRemoved(attrs, rest);
      assert Without(attrs, 0) == [];
    } else {
      FirstRemoved(attrs, rest);
      assert RepeatedFirst(attrs, from) <==> last > 0;
    }
  }

  // ----- The lexing loop -----

  /** The variables of the loop: the token before the attribute, where the
      attribute was last seen, and the token after it. */
  datatype Found = Found(beforeTok: nat, attrLoc: Option<nat>, afterTok: Option<nat>)

  /** One turn of the loop, over an attribute at pos that ends at sep: whether it
      is the one that is looked for, and whether another one follows. */
  function Turned(here: bool, pos: nat, more: bool, sep: nat, found: Found): Found {
    var attrLoc := if here then Some(pos) else found.attrLoc;
    Found(if attrLoc.None? && more then sep else found.beforeTok,
          attrLoc,
          if attrLoc.Some? && found.afterTok.None? then Some(pos + 1) else found.afterTok)
  }

  /** How lexing the list ends: with a token that is no name, at an attribute to
      rename, or at the closing parenthesis. */
  datatype Lexed = NoName | ToRename(at: nat) | AtEnd(found: Found)

  function LexList(tokens: seq<Token>, from: string, to: string, pos: nat, found: Found): Lexed
    requires !LexesForever(tokens, from, to, pos)
    decreases |tokens| - pos
  {
    if !Lex(tokens, pos).Identifier? then NoName
    else if Lex(tokens, pos).name == from && to != "" then ToRename(pos)
    else
      var sep := NextSeparator(tokens, pos + 1);
      var next := Turned(Lex(tokens, pos).name == from, pos, tokens[sep] == Comma, sep, found);
      if tokens[sep] == RParen then AtEnd(next) else LexList(tokens, from, to, sep + 1, next)
  }

  /** What is asked for in the end. */
  function EditAfter(tokens: seq<Token>, to: string, lexed: Lexed): (bool, Edit) {
    match lexed
    case NoName => (false, NoEdit)
    case ToRename(at) => (true, RenameToken(at, to))
    case AtEnd(found) =>
      if to == "" && found.attrLoc.Some? && found.afterTok.Some? then
        (true, ChooseRemoval(tokens, found.beforeTok, found.attrLoc.value, found.afterTok.value))
      else (false, NoEdit)
  }

  const START := Found(2, None, None)

  function RewriteOf(tokens: seq<Token>, from: string, to: string): (bool, Edit)
    requires !RunsIntoEof(tokens, from, to)
  {
    if Lex(tokens, 0) != At || Lex(tokens, 1) != KEYWORD || Lex(tokens, 2) != LParen then (false, NoEdit)
    else EditAfter(tokens, to, LexList(tokens, from, to, 3, START))
  }

  /** Renames the attribute `from` to `to`, or removes it when `to` is empty. */
  method RewritePropertyAttribute(tokens: seq<Token>, from: string, to: string) returns (ok: bool, edit: Edit)
    requires !RunsIntoEof(tokens, from, to)
    ensures (ok, edit) == RewriteOf(tokens, from, to)
  {
    if Lex(tokens, 0) != At || Lex(tokens, 1) != KEYWORD || Lex(tokens, 2) != LParen {
      return false, NoEdit;
    }
    var found := START;
    var pos: nat := 3;
    if Lex(tokens, pos) == RParen {
      return false, NoEdit;
    }
    while true
      invariant !LexesForever(tokens, from, to, pos)
      invariant LexList(tokens, from, to, 3, START) == LexList(tokens, from, to, pos, found)
      decreases |tokens| - pos
    {
      if !Lex(tokens, pos).Identifier? {
        return false, NoEdit;
      }
      if Lex(tokens, pos).name == from && to != "" {
        return true, RenameToken(pos, to);
      }
      ghost var lexed := LexList(tokens, from, to, pos, found);
      pos, found := LexAttribute(tokens, from, pos, found);
      if Lex(tokens, pos) == RParen {
        assert lexed == AtEnd(found);
        break;
      }
      pos := pos + 1;
    }
    if to == "" && found.attrLoc.Some? && found.afterTok.Some? {
      return true, ChooseRemoval(tokens, found.beforeTok, found.attrLoc.value, found.afterTok.value);
    }
    return false, NoEdit;
  }

  /** Notes where the attribute is, and lexes on to the comma or parenthesis that
      ends it. */
  method LexAttribute(tokens: seq<Token>, from: string, start: nat, found: Found) returns (pos: nat, next: Found)
    requires Lex(tokens, start).Identifier? && NextSeparator(tokens, start + 1) < |tokens|
    ensures pos == NextSeparator(tokens, start + 1) && next == Turned(Lex(tokens, start).name == from, start, tokens[pos] == Comma, pos, found)
  {
    next := found;
    if Lex(tokens, start).name == from {
      // We want to remove the attribute.
      next := next.(attrLoc := Some(start));
    }
    pos := start + 1;
    if next.attrLoc.Some? && next.afterTok.None? {
      next := next.(afterTok := Some(pos));
    }
    while Lex(tokens, pos) != Comma && Lex(tokens, pos) != RParen
      invariant NextSeparator(tokens, pos) == NextSeparator(tokens, start + 1)
      decreases |tokens| - pos
    {
      pos := pos + 1;
    }
    if Lex(tokens, pos) == Comma && next.attrLoc.None? {
      next := next.(beforeTok := pos);
    }
  }

  // ----- The loop on a well-formed list -----

  /** What the loop knows before it lexes the attribute i: the attribute was
      first seen at k and last seen at `last`. */
  ghost predicate Scanned(attrs: seq<Attr>, starts: seq<nat>, from: string, i: nat, k: nat, last: nat, found: Found)
    requires |attrs| < |starts|
  {
    && i <= |attrs| && (found.attrLoc.None? <==> found.afterTok.None?)
    && (found.attrLoc.None? ==> (forall j :: 0 <= j < i ==> attrs[j].name != from)
                                && (i < |attrs| ==> found.beforeTok + 1 == starts[i]))
    && (found.attrLoc.Some? ==> k <= last < i && attrs[k].name == attrs[last].name == from
                                && (forall j :: 0 <= j < k ==> attrs[j].name != from)
                                && (forall j :: last < j < i ==> attrs[j].name != from)
                                && found.attrLoc.value == starts[last]
                                && found.beforeTok + 1 == starts[k]
                                && found.afterTok.value == starts[k] + 1)
  }

  /** The lexer stops behind the value of an attribute. */
  lemma ValueSkipped(tokens: seq<Token>, p: nat, a: Attr, last: bool)
    requires AttrAt(tokens, p, a, last) && a.WellFormed()
    ensures NextSeparator(tokens, p + 1) == p + 1 + |a.value|
  {
    forall j | p + 1 <= j < p + 1 + |a.value| ensures !Separates(tokens[j]) {
      assert tokens[j] == a.value[j - p - 1];
    }
  }

  ghost predicate LaidAt(tokens: seq<Token>, attrs: seq<Attr>, starts: seq<nat>, k: nat)
    requires k < |attrs| < |starts|
  {
    AttrAt(tokens, starts[k], attrs[k], k == |attrs| - 1) && starts[k + 1] == starts[k] + |attrs[k].value| + 2
  }

  /** The attributes lie behind one another, from where `starts` says. */
  ghost predicate Laid(tokens: seq<Token>, attrs: seq<Attr>, starts: seq<nat>) {
    |starts| == |attrs| + 1 && forall k :: 0 <= k < |attrs| ==> LaidAt(tokens, attrs, starts, k)
  }

  lemma ScannedNext(attrs: seq<Attr>, starts: seq<nat>, from: string, i: nat, k: nat, last: nat, found: Found, sep: nat)
    requires |starts| == |attrs| + 1 && i < |attrs| && starts[i + 1] == sep + 1
    requires Scanned(attrs, starts, from, i, k, last, found)
    ensures var here := attrs[i].name == from;
            Scanned(attrs, starts, from, i + 1, if here && found.attrLoc.None? then i else k, if here then i else last,
                    Turned(here, starts[i], i + 1 < |attrs|, sep, found))
  {
  }

  lemma LaidNext(tokens: seq<Token>, attrs: seq<Attr>, starts: seq<nat>, i: nat)
    requires WellFormed(attrs) && Laid(tokens, attrs, starts) && i < |attrs|
    ensures var sep := NextSeparator(tokens, starts[i] + 1);
            && sep < |tokens| && starts[i + 1] == sep + 1
            && Lex(tokens, starts[i]) == Identifier(attrs[i].name)
            && tokens[sep] == if i + 1 < |attrs| then Comma else RParen
  {
    assert LaidAt(tokens, attrs, starts, i) && attrs[i] in attrs;
    AttrLexed(tokens, starts[i], attrs[i], i == |attrs| - 1);
  }

  lemma AttrLexed(tokens: seq<Token>, p: nat, a: Attr, last: bool)
    requires AttrAt(tokens, p, a, last) && a.WellFormed()
    ensures var sep := NextSeparator(tokens, p + 1);
            && sep == p + 1 + |a.value| < |tokens| && Lex(tokens, p) == Identifier(a.name)
            && tokens[sep] == if last then RParen else Comma
  {
    ValueSkipped(tokens, p, a, last);
  }

  /** What lexing comes to on a list. */
  ghost predicate LexedRight(attrs: seq<Attr>, starts: seq<nat>, from: string, to: string, lexed: Lexed)
    requires |attrs| < |starts|
  {
    match lexed
    case NoName => false
    case ToRename(at) => to != "" && exists j :: 0 <= j < |attrs| && attrs[j].name == from && at == starts[j]
    case AtEnd(found) =>
      (to != "" ==> found.attrLoc.None?) && exists k: nat, last: nat :: Scanned(attrs, starts, from, |attrs|, k, last, found)
  }

  /** Lexing a list from its attribute i on. */
  lemma {:induction false} LexesList(tokens: seq<Token>, attrs: seq<Attr>, starts: seq<nat>, from: string, to: string,
                                     i: nat, k: nat, last: nat, found: Found)
    requires WellFormed(attrs) && Laid(tokens, attrs, starts) && i < |attrs|
    requires Scanned(attrs, starts, from, i, k, last, found) && (to != "" ==> found.attrLoc.None?)
    ensures !LexesForever(tokens, from, to, starts[i])
    ensures LexedRight(attrs, starts, from, to, LexList(tokens, from, to, starts[i], found))
    decreases |attrs| - i
  {
    LaidNext(tokens, attrs, starts, i);
    var here, sep := attrs[i].name == from, NextSeparator(tokens, starts[i] + 1);
    if here && to != "" {
      assert LexList(tokens, from, to, starts[i], found) == ToRename(starts[i]);
    } else {
      var k', last' := if here && found.attrLoc.None? then i else k, if here then i else last;
      var next := Turned(here, starts[i], i + 1 < |attrs|, sep, found);
      ScannedNext(attrs, starts, from, i, k, last, found, sep);
      if i + 1 < |attrs| {
        LexesList(tokens, attrs, starts, from, to, i + 1, k', last', next);
        assert LexList(tokens, from, to, starts[i], found) == LexList(tokens, from, to, starts[i + 1], next);
      } else {
        assert LexList(tokens, from, to, starts[i], found) == AtEnd(next);
      }
    }
  }

  ghost function Starts(attrs: seq<Attr>): (starts: seq<nat>)
    ensures |starts| == |attrs| + 1 && forall k :: 0 <= k <= |attrs| ==> starts[k] == Start(attrs, k)
  {
    seq(|attrs| + 1, k requires 0 <= k <= |attrs| => Start(attrs, k))
  }

  lemma PropertyIsLaid(attrs: seq<Attr>, rest: seq<Token>)
    ensures Laid(Property(attrs, rest), attrs, Starts(attrs))
  {
    forall k | 0 <= k < |attrs| ensures LaidAt(Property(attrs, rest), attrs, Starts(attrs), k) {
      PropertyAt(attrs, rest, k);
      NextOffset(attrs, k);
    }
  }

  lemma RenamingOutcome(attrs: seq<Attr>, rest: seq<Token>, from: string, to: string, j: nat)
    requires j < |attrs| && attrs[j].name == from && to != ""
    ensures Outcome(attrs, rest, from, to, true, RenameToken(Start(attrs, j), to))
  {
    RenamedAt(attrs, rest, j, to);
    assert attrs[j] in attrs;
    assert forall k: nat :: OnlyAt(attrs, from, k) ==> k == j;
  }

  lemma RemovingOutcome(attrs: seq<Attr>, rest: seq<Token>, from: string, k: nat, last: nat)
    requires k <= last < |attrs| && attrs[k].name == attrs[last].name == from && WellFormed(attrs)
    requires forall j :: 0 <= j < k ==> attrs[j].name != from
    requires forall j :: last < j < |attrs| ==> attrs[j].name != from
    ensures Outcome(attrs, rest, from, "", true,
                    ChooseRemoval(Property(attrs, rest), Start(attrs, k) - 1, Start(attrs, last), Start(attrs, k) + 1))
  {
    ChosenRemoval(attrs, rest, from, k, last);
    assert attrs[k] in attrs;
    assert forall j: nat :: OnlyAt(attrs, from, j) ==> j == k;
  }

  lemma MissingOutcome(attrs: seq<Attr>, rest: seq<Token>, from: string, to: string)
    requires forall j :: 0 <= j < |attrs| ==> attrs[j].name != from
    ensures Outcome(attrs, rest, from, to, false, NoEdit)
  {
  }

  lemma EndOutcome(attrs: seq<Attr>, rest: seq<Token>, from: string, to: string, starts: seq<nat>,
                   k: nat, last: nat, found: Found)
    requires WellFormed(attrs) && |starts| == |attrs| + 1 && forall i :: 0 <= i <= |attrs| ==> starts[i] == Start(attrs, i)
    requires Scanned(attrs, starts, from, |attrs|, k, last, found) && (to != "" ==> found.attrLoc.None?)
    ensures var (ok, edit) := EditAfter(Property(attrs, rest), to, AtEnd(found));
            Outcome(attrs, rest, from, to, ok, edit)
  {
    if found.attrLoc.Some? {
      assert starts[k] == Start(attrs, k) && starts[last] == Start(attrs, last);
      RemovingOutcome(attrs, rest, from, k, last);
      RemovingChosen(Property(attrs, rest), Start(attrs, k), Start(attrs, last), found);
    } else {
      MissingOutcome(attrs, rest, from, to);
    }
  }

  lemma RemovingChosen(tokens: seq<Token>, first: nat, last: nat, found: Found)
    requires found.attrLoc == Some(last) && found.afterTok == Some(first + 1) && found.beforeTok + 1 == first
    ensures EditAfter(tokens, "", AtEnd(found)) == (true, ChooseRemoval(tokens, first - 1, last, first + 1))
  {
  }

  lemma RightOutcome(attrs: seq<Attr>, rest: seq<Token>, from: string, to: string, lexed: Lexed)
    requires WellFormed(attrs) && LexedRight(attrs, Starts(attrs), from, to, lexed)
    ensures var (ok, edit) := EditAfter(Property(attrs, rest), to, lexed);
            Outcome(attrs, rest, from, to, ok, edit)
  {
    match lexed
    case ToRename(at) =>
      var j :| 0 <= j < |attrs| && attrs[j].name == from && at == Starts(attrs)[j];
      RenamingOutcome(attrs, rest, from, to, j);
    case AtEnd(found) =>
      var k: nat, last: nat :| Scanned(attrs, Starts(attrs), from, |attrs|, k, last, found);
      EndOutcome(attrs, rest, from, to, Starts(attrs), k, last, found);
  }

  /** Rewriting a declaration with a well-formed list comes to an end and does what
      it should, as far as `Outcome` says. */
  lemma RewritesList(attrs: seq<Attr>, rest: seq<Token>, from: string, to: string)
    requires WellFormed(attrs) && attrs != []
    ensures var tokens := Property(attrs, rest);
            && !RunsIntoEof(tokens, from, to)
            && var (ok, edit) := RewriteOf(tokens, from, to);
               Outcome(attrs, rest, from, to, ok, edit)
  {
    var tokens := Property(attrs, rest);
    PropertyIsLaid(attrs, rest);
    assert Starts(attrs)[0] == 3;
    assert tokens[0] == At && tokens[1] == KEYWORD && tokens[2] == LParen;
    LexesList(tokens, attrs, Starts(attrs), from, to, 0, 0, 0, START);
    RightOutcome(attrs, rest, from, to, LexList(tokens, from, to, 3, START));
  }

  /** Without a list of attributes, or with an empty one, nothing is edited. */
  lemma NothingToRewrite(tokens: seq<Token>, from: string, to: string)
    requires !(PROPERTY + [LParen] <= tokens) || PROPERTY + [LParen, RParen] <= tokens
    ensures !RunsIntoEof(tokens, from, to) && RewriteOf(tokens, from, to) == (false, NoEdit)
  {
    if PROPERTY + [LParen] <= tokens {
      assert tokens[3] == (PROPERTY + [LParen, RParen])[3];
    }
    assert Lex(tokens, 0) == At && Lex(tokens, 1) == KEYWORD && Lex(tokens, 2) == LParen ==> tokens[..3] == PROPERTY + [LParen];
  }

  /** An attribute with a value is left half behind. */
  lemma ValueIsLeftBehind()
    ensures var tokens := Property([Attr("getter", [Other("="), Identifier("f")]), Attr("weak", [])], []);
            var edit := ChooseRemoval(tokens, 2, 3, 4);
            && edit.Fits(tokens)
            && edit.ApplyTo(tokens) == PROPERTY + [Other("="), Identifier("f"), Comma, Identifier("weak"), RParen]
  {
    var getter, weak := Attr("getter", [Other("="), Identifier("f")]), Attr("weak", []);
    assert [getter, weak][1..] == [weak];
    assert ListFrom([weak], []) == [Identifier("weak"), RParen];
    assert Property([getter, weak], []) ==
           [At, KEYWORD, LParen, Identifier("getter"), Other("="), Identifier("f"), Comma, Identifier("weak"), RParen];
  }

  /** The tokens to remove of a repeated first attribute run backwards. */
  lemma RepeatedRunsBackwards()
    ensures var attrs := [Attr("weak", []), Attr("weak", [])];
            && RepeatedFirst(attrs, "weak")
            && ChooseRemoval(Property(attrs, []), 2, 5, 4) == RemoveTokens(5, 4)
  {
    var weak := Attr("weak", []);
    var attrs := [weak, weak];
    assert attrs[1..] == [weak];
    assert ListFrom([weak], []) == [Identifier("weak"), RParen];
    assert Property(attrs, []) ==
           [At, KEYWORD, LParen, Identifier("weak"), Comma, Identifier("weak"), RParen];
    assert attrs[1].name == "weak";
  }

  // ----- Adding an attribute -----

  /** Adds a value-less attribute in front of the others. */
  function AddPropertyAttribute(tokens: seq<Token>, attr: string): (r: (bool, Edit))
    ensures !r.0 ==> r.1 == NoEdit
    ensures r.1.Fits(tokens)
  {
    if Lex(tokens, 0) != At || Lex(tokens, 1) != KEYWORD then (false, NoEdit)
    else if Lex(tokens, 2) != LParen then (true, InsertTokens(2, [LParen, Identifier(attr), RParen]))
    else if Lex(tokens, 3) == RParen then (true, InsertTokens(3, [Identifier(attr)]))
    else if !Lex(tokens, 3).Identifier? then (false, NoEdit)
    else (true, InsertTokens(3, [Identifier(attr), Comma]))
  }

  /** Inserting between two parts. */
  lemma InsertedBetween(front: seq<Token>, back: seq<Token>, tokens: seq<Token>)
    ensures InsertTokens(|front|, tokens).ApplyTo(front + back) == front + tokens + back
  {
  }

  lemma AddedToNone(rest: seq<Token>, attr: string)
    requires Lex(rest, 0) != LParen
    ensures AddPropertyAttribute(PROPERTY + rest, attr) == (true, InsertTokens(2, [LParen, Identifier(attr), RParen]))
  {
    var tokens := PROPERTY + rest;
    assert tokens[0] == At && tokens[1] == KEYWORD;
    assert Lex(tokens, 2) == Lex(rest, 0);
  }

  lemma AddedToList(list: seq<Token>, attr: string)
    requires list != [] && (list[0].Identifier? || list[0] == RParen)
    ensures AddPropertyAttribute(PROPERTY + [LParen] + list, attr) ==
            (true, InsertTokens(3, [Identifier(attr)] + if list[0] == RParen then [] else [Comma]))
  {
    var tokens := PROPERTY + [LParen] + list;
    assert tokens[0] == At && tokens[1] == KEYWORD && tokens[2] == LParen && tokens[3] == list[0];
    assert [Identifier(attr)] + [] == [Identifier(attr)] && [Identifier(attr)] + [Comma] == [Identifier(attr), Comma];
  }

  lemma ListWithAdded(attrs: seq<Attr>, rest: seq<Token>, attr: string)
    ensures ListFrom([Attr(attr, [])] + attrs, rest) ==
            [Identifier(attr)] + if attrs == [] then [RParen] + rest else [Comma] + ListFrom(attrs, rest)
  {
    var added := [Attr(attr, [])] + attrs;
    assert added[0] == Attr(attr, []) && added[1..] == attrs;
    assert added[0].Tokens() == [Identifier(attr)];
  }

  lemma Together<T>(a: seq<T>, b: seq<T>, c: seq<T>, d: seq<T>)
    ensures a + (b + c) + d == a + b + (c + d) == a + (b + (c + d))
  {
    assert a + (b + c) == a + b + c;
    assert a + b + c + d == a + b + (c + d);
  }

  /** With or without other attributes, the new one comes first. */
  lemma AddedComesFirst(attrs: seq<Attr>, rest: seq<Token>, attr: string)
    requires attrs == [] ==> Lex(rest, 0) != LParen
    ensures var (ok, edit) := AddPropertyAttribute(Property(attrs, rest), attr);
            ok && edit.ApplyTo(Property(attrs, rest)) == Property([Attr(attr, [])] + attrs, rest)
  {
    if attrs == [] {
      assert [Attr(attr, [])] + attrs == [Attr(attr, [])];
      AddedToBare(rest, attr);
    } else {
      AddedToOthers(attrs, rest, attr);
    }
  }

  lemma AddedToBare(rest: seq<Token>, attr: string)
    requires Lex(rest, 0) != LParen
    ensures var (ok, edit) := AddPropertyAttribute(Property([], rest), attr);
            ok && edit.ApplyTo(Property([], rest)) == Property([Attr(attr, [])], rest)
  {
    var name, added := Identifier(attr), [Attr(attr, [])];
    AddedToNone(rest, attr);
    InsertedBetween(PROPERTY, rest, [LParen, name, RParen]);
    assert [LParen, name, RParen] == [LParen] + [name, RParen];
    Together(PROPERTY, [LParen], [name, RParen], rest);
    assert added + [] == added;
    ListWithAdded([], rest, attr);
    assert ListFrom(added, rest) == [name, RParen] + rest;
    PropertySplits(added, rest);
  }

  lemma AddedToOthers(attrs: seq<Attr>, rest: seq<Token>, attr: string)
    requires attrs != []
    ensures var (ok, edit) := AddPropertyAttribute(Property(attrs, rest), attr);
            ok && edit.ApplyTo(Property(attrs, rest)) == Property([Attr(attr, [])] + attrs, rest)
  {
    var list := ListFrom(attrs, rest);
    PropertySplits(attrs, rest);
    AddedToList(list, attr);
    InsertedBetween(PROPERTY + [LParen], list, [Identifier(attr)] + [Comma]);
    ListWithAdded(attrs, rest, attr);
    PropertySplits([Attr(attr, [])] + attrs, rest);
    Together(PROPERTY + [LParen], [Identifier(attr)], [Comma], list);
  }

  /** An empty pair of parentheses is filled. */
  lemma AddedToEmptyParens(rest: seq<Token>, attr: string)
    ensures var tokens := PROPERTY + [LParen] + ([RParen] + rest);
            var (ok, edit) := AddPropertyAttribute(tokens, attr);
            ok && edit.ApplyTo(tokens) == Property([Attr(attr, [])], rest)
  {
    var list := [RParen] + rest;
    AddedToList(list, attr);
    InsertedBetween(PROPERTY + [LParen], list, [Identifier(attr)] + []);
    ListWithAdded([], rest, attr);
    assert [Attr(attr, [])] + [] == [Attr(attr, [])];
    PropertySplits([Attr(attr, [])], rest);
    Together(PROPERTY + [LParen], [Identifier(attr)], [], list);
  }

  /** Nothing is added to what is no property declaration, or to a list that does not
      start with a name. */
  lemma NothingAdded(tokens: seq<Token>, attr: string)
    requires !(PROPERTY <= tokens) ||
             (PROPERTY + [LParen] <= tokens && !(|tokens| > 3 && (tokens[3].Identifier? || tokens[3] == RParen)))
    ensures AddPropertyAttribute(tokens, attr) == (false, NoEdit)
  {
    if PROPERTY + [LParen] <= tokens {
      assert tokens[2] == (PROPERTY + [LParen])[2];
    }
    assert Lex(tokens, 0) == At && Lex(tokens, 1) == KEYWORD ==> tokens[..2] == PROPERTY;
  }

  /** Adding an absent attribute and removing it again restores the list. */
  method AddThenRemove(attrs: seq<Attr>, rest: seq<Token>, attr: string) returns (tokens: seq<Token>)
    requires WellFormed(attrs) && (attrs == [] ==> Lex(rest, 0) != LParen)
    requires forall a :: a in attrs ==> a.name != attr
    ensures tokens == Property(attrs, rest)
  {
    AddedComesFirst(attrs, rest, attr);
    ghost var added := [Attr(attr, [])] + attrs;
    tokens := AddPropertyAttribute(Property(attrs, rest), attr).1.ApplyTo(Property(attrs, rest));
    RewritesList(added, rest, attr, "");
    var ok, edit := RewritePropertyAttribute(tokens, attr, "");
    assert forall j :: 0 < j < |added| ==> added[j] in attrs;
    assert OnlyAt(added, attr, 0);
    assert Without(added, 0) == attrs;
    tokens := edit.ApplyTo(tokens);
  }
}
