/** The text format of the remap file (FileRemapper.cpp): for every remapped
    file three lines, its name, its modification time and its new name. */
module RemapFile {
  import opened Lines
  import opened Wrappers

  type Path = string

  /** A file as a file manager knows it; the modification time is that of the
      first look at it. */
  datatype FileEntry = FileEntry(name: Path, mtime: nat)

  const TWO_TO_64: nat := 0x1_0000_0000_0000_0000

  // ----- Numbers -----

  function Digit(d: nat): char
    requires d < 10
  {
    '0' + d as char
  }

  predicate IsDigit(c: char) { '0' <= c <= '9' }

  function DigitValue(c: char): nat
    requires IsDigit(c)
  {
    (c - '0') as nat
  }

  function Decimal(n: nat): string {
    if n < 10 then [Digit(n)] else Decimal(n / 10) + [Digit(n % 10)]
  }

  predicate AllDigits(s: string) { forall c :: c in s ==> IsDigit(c) }

  function Value(s: string): nat
    requires AllDigits(s)
  {
    if s == "" then 0 else Value(s[..|s| - 1]) * 10 + DigitValue(s[|s| - 1])
  }

  /** The number a line holds, if it is one and fits 64 bits. */
  function ParseUnsigned(s: string): Option<nat> {
    if s != "" && AllDigits(s) && Value(s) < TWO_TO_64 then Some(Value(s)) else None
  }

  lemma {:induction false} DecimalRoundTrip(n: nat)
    ensures Decimal(n) != "" && AllDigits(Decimal(n)) && Value(Decimal(n)) == n
  {
    if n < 10 {
      assert Decimal(n)[..0] == "";
    } else {
      DecimalRoundTrip(n / 10);
      assert Decimal(n)[..|Decimal(n)| - 1] == Decimal(n / 10);
    }
  }

  /** Numbers of up to 64 bits are read back, and no others. */
  lemma NumbersFit(n: nat)
    ensures ParseUnsigned(Decimal(n)) == if n <= 0xFFFF_FFFF_FFFF_FFFF then Some(n) else None
  {
    DecimalRoundTrip(n);
  }

  lemma {:induction false} ValueGrows(s: string, i: nat)
    requires AllDigits(s) && i <= |s|
    ensures AllDigits(s[..i]) && Value(s[..i]) <= Value(s)
    decreases |s|
  {
    if i < |s| {
      var front := s[..|s| - 1];
      ValueGrows(front, i);
      assert front[..i] == s[..i];
    } else {
      assert s[..i] == s;
    }
  }

  /** The 64-bit loop of the original, which wraps around and looks whether bits
      were lost. Returns true on an error. */
  method GetAsUnsignedInteger(s: string) returns (err: bool, result: nat)
    ensures err <==> ParseUnsigned(s).None?
    ensures !err ==> result == ParseUnsigned(s).value
  {
    result := 0;
    if s == "" {
      return true, result;
    }
    for i := 0 to |s|
      invariant AllDigits(s[..i]) && result == Value(s[..i]) < TWO_TO_64
    {
      if !IsDigit(s[i]) {
        assert s[i] in s;
        return true, result;
      }
      var prev := result;
      assert s[..i + 1] == s[..i] + [s[i]];
      assert Value(s[..i + 1]) == prev * 10 + DigitValue(s[i]);
      result := (result * 10 + DigitValue(s[i])) % TWO_TO_64;
      LostBits(prev, DigitValue(s[i]));
      if result / 10 < prev {
        if AllDigits(s) { ValueGrows(s, i + 1); }
        return true, result;
      }
    }
    assert s[..|s|] == s;
    return false, result;
  }

  lemma LostBits(prev: nat, d: nat)
    requires prev < TWO_TO_64 && d < 10
    ensures var full := prev * 10 + d;
            if full < TWO_TO_64 then full % TWO_TO_64 == full && full / 10 == prev
            else full % TWO_TO_64 / 10 < prev
  {
    var full := prev * 10 + d;
    if full >= TWO_TO_64 {
      var r := full % TWO_TO_64;
      assert r <= full - TWO_TO_64;
    }
  }

  lemma {:induction false} DecimalIsOneLine(n: nat)
    ensures OneLine(Decimal(n))
  {
    DecimalRoundTrip(n);
  }

  // ----- Records -----

  /** What is written for a list of remapped files. */
  function Records(order: seq<FileEntry>, target: map<FileEntry, FileEntry>): seq<string>
    requires forall f :: f in order ==> f in target
  {
    if order == [] then []
    else [order[0].name, Decimal(order[0].mtime), target[order[0]].name] + Records(order[1..], target)
  }

  /** Three lines for every file, in the given order: its name, its modification time,
      and the name of its new contents. */
  lemma {:induction false} RecordsAt(order: seq<FileEntry>, target: map<FileEntry, FileEntry>, k: nat)
    requires (forall f :: f in order ==> f in target) && k < |order|
    ensures var lines := Records(order, target);
            && |lines| == 3 * |order|
            && lines[3 * k] == order[k].name && lines[3 * k + 1] == Decimal(order[k].mtime)
            && lines[3 * k + 2] == target[order[k]].name
  {
    assert order[0] in order && forall f :: f in order[1..] ==> f in order;
    if k > 0 {
      RecordsAt(order[1..], target, k - 1);
    } else if |order| > 1 {
      RecordsAt(order[1..], target, 0);
    }
  }

  /** Numbers are written as usual. */
  lemma DecimalExample()
    ensures Decimal(1203) == "1203" && Decimal(0) == "0" && Value("98") == 98
  {
    assert Decimal(12) == "12" && Decimal(120) == "120";
    assert "98"[..1] == "9" && "9"[..0] == "";
  }

  /** A mapping that a remap file can hold. */
  predicate Printable(target: map<FileEntry, FileEntry>) {
    forall f :: f in target ==> OneLine(f.name) && f.mtime < TWO_TO_64 && OneLine(target[f].name)
  }

  lemma {:induction false} RecordsAreLines(order: seq<FileEntry>, target: map<FileEntry, FileEntry>)
    requires (forall f :: f in order ==> f in target) && Printable(target)
    ensures forall l :: l in Records(order, target) ==> OneLine(l)
  {
    if order != [] {
      assert forall f :: f in order[1..] ==> f in order;
      RecordsAreLines(order[1..], target);
      DecimalIsOneLine(order[0].mtime);
    }
  }

  /** The files a reader can see, by name. */
  type View = map<Path, FileEntry>

  ghost predicate ProperView(view: View) {
    forall p :: p in view ==> view[p].name == p
  }

  /** Reads the remap file back; None is a reported error. With `ignore`, a pair
      whose files are missing or whose original was modified is left out. */
  function ParsePairs(lines: seq<string>, view: View, ignore: bool): Option<seq<(FileEntry, FileEntry)>> {
    if |lines| < 3 then Some([])
    else if ParseUnsigned(lines[1]).None? then None
    else
      var good := GoodPair(view, lines[0], ParseUnsigned(lines[1]).value, lines[2]);
      if !good && !ignore then None
      else
        var rest := ParsePairs(lines[3..], view, ignore);
        if rest.None? || !good then rest else Some([(view[lines[0]], view[lines[2]])] + rest.value)
  }

  predicate GoodPair(view: View, from: Path, mtime: nat, to: Path) {
    from in view && to in view && view[from].mtime == mtime
  }

  /** The remapped file still has the modification time it was recorded with,
      and its new contents are still there. */
  predicate Fresh(view: View, target: map<FileEntry, FileEntry>, f: FileEntry)
    requires f in target
  {
    GoodPair(view, f.name, f.mtime, target[f].name)
  }

  function FreshPairs(order: seq<FileEntry>, target: map<FileEntry, FileEntry>, view: View): (pairs: seq<(FileEntry, FileEntry)>)
    requires forall f :: f in order ==> f in target
  {
    if order == [] then []
    else (if Fresh(view, target, order[0]) then [(view[order[0].name], view[target[order[0]].name])] else []) +
         FreshPairs(order[1..], target, view)
  }

  /** The mapping that pairs build up, later pairs replacing earlier ones. */
  function MapOf(pairs: seq<(FileEntry, FileEntry)>): map<FileEntry, FileEntry> {
    if pairs == [] then map[]
    else MapOf(pairs[..|pairs| - 1])[pairs[|pairs| - 1].0 := pairs[|pairs| - 1].1]
  }

  lemma {:induction false} ParseRecords(order: seq<FileEntry>, target: map<FileEntry, FileEntry>, view: View, ignore: bool)
    requires (forall f :: f in order ==> f in target) && Printable(target)
    ensures ParsePairs(Records(order, target) + [""], view, ignore) ==
            if ignore || (forall f :: f in order ==> Fresh(view, target, f))
            then Some(FreshPairs(order, target, view)) else None
  {
    if order == [] {
      assert |Records(order, target) + [""]| == 1;
    } else {
      var f, rest := order[0], order[1..];
      assert forall g :: g in rest ==> g in order;
      assert [] + FreshPairs(rest, target, view) == FreshPairs(rest, target, view);
      assert (forall g :: g in order ==> Fresh(view, target, g)) <==>
             Fresh(view, target, f) && forall g :: g in rest ==> Fresh(view, target, g) by {
        assert forall g :: g in order <==> g == f || g in rest;
      }
      ParseRecords(rest, target, view, ignore);
      ParseOne(f, target, Records(rest, target) + [""], view, ignore);
      assert Records(order, target) + [""] == [f.name, Decimal(f.mtime), target[f].name] + (Records(rest, target) + [""]);
    }
  }

  lemma ParseOne(f: FileEntry, target: map<FileEntry, FileEntry>, rest: seq<string>, view: View, ignore: bool)
    requires f in target && f.mtime < TWO_TO_64
    ensures var pairs := ParsePairs(rest, view, ignore);
            ParsePairs([f.name, Decimal(f.mtime), target[f].name] + rest, view, ignore) ==
            if Fresh(view, target, f)
            then if pairs.None? then None else Some([(view[f.name], view[target[f].name])] + pairs.value)
            else if ignore then pairs else None
  {
    DecimalRoundTrip(f.mtime);
    var lines := [f.name, Decimal(f.mtime), target[f].name] + rest;
    assert lines[3..] == rest;
  }

  /** The pairs read back make up exactly the fresh part of the mapping. */
  lemma {:induction false} FreshPairsMap(order: seq<FileEntry>, target: map<FileEntry, FileEntry>, view: View)
    requires (forall f :: f in order ==> f in target) && ProperView(view)
    ensures var m := MapOf(FreshPairs(order, target, view));
            && (forall f :: f in m <==> f in order && Fresh(view, target, f))
            && (forall f :: f in m ==> m[f] == view[target[f].name])
  {
    if order != [] {
      var front, last := order[..|order| - 1], order[|order| - 1];
      FreshPairsMap(front, target, view);
      FreshPairsAppend(front, last, target, view);
      assert order == front + [last];
      var pairs := FreshPairs(front, target, view);
      if Fresh(view, target, last) {
        var all := pairs + [(view[last.name], view[target[last].name])];
        assert all[..|all| - 1] == pairs;
        assert view[last.name] == last;
      } else {
        assert pairs + [] == pairs;
      }
    }
  }

  lemma {:induction false} FreshPairsAppend(front: seq<FileEntry>, last: FileEntry, target: map<FileEntry, FileEntry>, view: View)
    requires (forall f :: f in front ==> f in target) && last in target
    ensures FreshPairs(front + [last], target, view) ==
            FreshPairs(front, target, view) +
            (if Fresh(view, target, last) then [(view[last.name], view[target[last].name])] else [])
  {
    if front == [] {
      assert front + [last] == [last] && [last][1..] == [];
    } else {
      assert (front + [last])[1..] == front[1..] + [last];
      assert forall f :: f in front[1..] ==> f in front;
      FreshPairsAppend(front[1..], last, target, view);
    }
  }

  /** Reading back what was written for a whole mapping, in whatever order, gives
      exactly its fresh part. When nothing may be ignored, it gives the whole
      mapping if all of it is fresh and an error otherwise. */
  lemma RemapFileRoundTrip(order: seq<FileEntry>, target: map<FileEntry, FileEntry>, view: View, ignore: bool)
    requires (forall f :: f in order <==> f in target) && Printable(target) && ProperView(view)
    ensures var pairs := ParsePairs(SplitLines(JoinLines(Records(order, target))), view, ignore);
            var allFresh := forall f :: f in target ==> Fresh(view, target, f);
            && (pairs.Some? <==> ignore || allFresh)
            && (pairs.Some? ==> MapOf(pairs.value) == map f | f in target && Fresh(view, target, f) :: view[target[f].name])
            && (allFresh && (forall f :: f in target ==> view[target[f].name] == target[f]) ==>
                MapOf(pairs.value) == target)
  {
    RecordsAreLines(order, target);
    SplitJoined(Records(order, target));
    ParseRecords(order, target, view, ignore);
    FreshPairsMap(order, target, view);
  }
}
