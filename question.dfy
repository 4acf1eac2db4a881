/** The question-text normaliser of the home page (Homepage.js, processQuestion):
    the prompt is split into an introductory line and one line per numbered item. */
module QuestionText {

  import opened Basics

  /** The code points ECMAScript counts as WhiteSpace or LineTerminator: what the
      regular-expression class `\s` matches and what `String.prototype.trim` removes. */
  predicate IsSpace(c: char) {
    var n := c as int;
    n == 0x09 || n == 0x0A || n == 0x0B || n == 0x0C || n == 0x0D || n == 0x20
    || n == 0xA0 || n == 0x1680 || (0x2000 <= n <= 0x200A) || n == 0x2028
    || n == 0x2029 || n == 0x202F || n == 0x205F || n == 0x3000 || n == 0xFEFF
  }

  /** An item marker `<digit>)` starts at position i of s. */
  predicate MarkerAt(s: string, i: int) {
    0 <= i && i + 1 < |s| && IsDigit(s[i]) && s[i + 1] == ')'
  }

  predicate AllSpace(s: string) {
    forall i :: 0 <= i < |s| ==> IsSpace(s[i])
  }

  /** No whitespace at either end. */
  predicate IsTrimmed(s: string) {
    s == [] || (!IsSpace(s[0]) && !IsSpace(s[|s| - 1]))
  }

  /** The text of s with every whitespace character dropped: what a split that only
      cuts at, and trims away, whitespace must leave intact. */
  function NonSpace(s: string): string {
    if s == [] then []
    else if IsSpace(s[0]) then NonSpace(s[1..])
    else [s[0]] + NonSpace(s[1..])
  }

  // ---------------------------------------------------------------------------
  // String.prototype.indexOf and String.prototype.trim

  predicate OccursAt(s: string, pat: string, i: int) {
    0 <= i && i + |pat| <= |s| && s[i..i + |pat|] == pat
  }

  /** `s.indexOf(pat, from)`: the first position at or after `from` where `pat`
      occurs, or -1 when there is none. */
  function IndexOf(s: string, pat: string, from: nat): (r: int)
    requires from <= |s|
    ensures r == -1 || (from <= r && OccursAt(s, pat, r))
    ensures forall i :: from <= i && (r == -1 || i < r) ==> !OccursAt(s, pat, i)
    decreases |s| - from
  {
    if from + |pat| > |s| then -1
    else if s[from..from + |pat|] == pat then from
    else if from == |s| then -1
    else IndexOf(s, pat, from + 1)
  }

  /** The end of the run of whitespace that starts at q. */
  function SpaceRunEnd(s: string, q: nat): (k: nat)
    requires q <= |s|
    ensures q <= k <= |s|
    ensures forall i :: q <= i < k ==> IsSpace(s[i])
    ensures k < |s| ==> !IsSpace(s[k])
    decreases |s| - q
  {
    if q < |s| && IsSpace(s[q]) then SpaceRunEnd(s, q + 1) else q
  }

  /** The start of the run of whitespace that ends at e. */
  function SpaceRunStart(s: string, e: nat): (k: nat)
    requires e <= |s|
    ensures k <= e
    ensures forall i :: k <= i < e ==> IsSpace(s[i])
    ensures k > 0 ==> !IsSpace(s[k - 1])
  {
    if e > 0 && IsSpace(s[e - 1]) then SpaceRunStart(s, e - 1) else e
  }

  /** `s.trim()`: s without its leading and trailing whitespace. The result is the
      one trimmed infix of s whose surroundings are all whitespace. */
  function Trim(s: string): (r: string)
    ensures IsTrimmed(r)
    ensures var a := SpaceRunEnd(s, 0);
            && a + |r| <= |s| && r == s[a..a + |r|]
            && (forall i :: 0 <= i < a ==> IsSpace(s[i]))
            && (forall i :: a + |r| <= i < |s| ==> IsSpace(s[i]))
  {
    var a := SpaceRunEnd(s, 0);
    var b := SpaceRunStart(s, |s|);
    if a < b then s[a..b] else []
  }

  // ---------------------------------------------------------------------------
  // String.prototype.split with the regular expression /\s*(?=\d\))/

  /** Where a match of `\s*(?=\d\))` tried at exactly position q ends, if it matches.
      The greedy `\s*` takes the whole whitespace run; giving characters back cannot
      help, since the lookahead needs a digit and a whitespace character is none. */
  function MatchAt(s: string, q: nat): (e: Option<nat>)
    requires q <= |s|
    ensures e.Some? ==> q <= e.value < |s| && MarkerAt(s, e.value) && AllSpace(s[q..e.value])
    ensures MarkerAt(s, q) ==> e == Some(q)
    ensures forall k :: q <= k <= |s| && AllSpace(s[q..k]) && MarkerAt(s, k) ==> e == Some(k)
  {
    var k := SpaceRunEnd(s, q);
    if MarkerAt(s, k) then Some(k) else None
  }

  /** The splitting loop of ECMAScript's RegExp.prototype[@@split]: p is where the
      current piece starts, q the position where a match is tried next. A match that
      ends where the current piece starts (an empty split) is skipped. */
  function SplitScan(s: string, p: nat, q: nat): (r: seq<string>)
    requires p <= q <= |s|
    ensures |r| >= 1
    decreases |s| - q, q - p
  {
    if q == |s| then [s[p..]]
    else match MatchAt(s, q)
      case None => SplitScan(s, p, q + 1)
      case Some(e) =>
        if e == p then SplitScan(s, p, q + 1) else [s[p..q]] + SplitScan(s, e, e)
  }

  /** `s.split(/\s*(?=\d\))/)`. */
  function Split(s: string): (r: seq<string>)
    ensures |r| >= 1
    ensures NonSpace(Concat(r)) == NonSpace(s)
    ensures MarkerAt(s, 0) ==> forall x :: x in r ==> IsPiece(x)
  {
    SplitScanKeepsText(s, 0, 0);
    if MarkerAt(s, 0) then
      SplitScanPieces(s, 0, 0);
      SplitScan(s, 0, 0)
    else
      SplitScan(s, 0, 0)
  }

  /** `xs.map(item => item.trim())`. */
  function TrimAll(xs: seq<string>): (r: seq<string>)
    ensures |r| == |xs| && forall i :: 0 <= i < |xs| ==> r[i] == Trim(xs[i])
  {
    if xs == [] then [] else [Trim(xs[0])] + TrimAll(xs[1..])
  }

  /** `xs.filter(Boolean)`: the empty strings are dropped. */
  function NonEmpty(xs: seq<string>): (r: seq<string>)
    ensures forall x :: x in r <==> x in xs && x != []
  {
    if xs == [] then []
    else if xs[0] == [] then NonEmpty(xs[1..])
    else [xs[0]] + NonEmpty(xs[1..])
  }

  /** `processQuestion(question)`. */
  function ProcessQuestion(question: string): (lines: seq<string>)
    ensures |lines| >= 1
  {
    var splitPosition := IndexOf(question, "1)", 0);
    if splitPosition <= 0 then [question]
    else
      var intro := Trim(question[..splitPosition]);
      var items := question[splitPosition..];
      [intro] + NonEmpty(TrimAll(Split(items)))
  }

  // ---------------------------------------------------------------------------
  // What the normaliser promises

  /** One numbered line: non-empty, trimmed, opening with its marker `<digit>)` and
      holding no other marker. */
  predicate IsItemLine(x: string) {
    MarkerAt(x, 0) && IsTrimmed(x) && forall j :: 0 < j < |x| ==> !MarkerAt(x, j)
  }

  lemma {:induction false} NonSpaceAppend(a: string, b: string)
    ensures NonSpace(a + b) == NonSpace(a) + NonSpace(b)
    decreases |a|
  {
    if a != [] {
      assert (a + b)[0] == a[0];
      assert (a + b)[1..] == a[1..] + b;
      NonSpaceAppend(a[1..], b);
    } else {
      assert a + b == b;
    }
  }

  lemma {:induction false} NonSpaceOfSpace(s: string)
    requires AllSpace(s)
    ensures NonSpace(s) == []
    decreases |s|
  {
    if s != [] {
      NonSpaceOfSpace(s[1..]);
    }
  }

  /** Trimming loses only whitespace. */
  lemma NonSpaceTrim(s: string)
    ensures NonSpace(Trim(s)) == NonSpace(s)
  {
    var r := Trim(s);
    var a := SpaceRunEnd(s, 0);
    NonSpaceMiddle(s, a, a + |r|);
  }

  /** Cutting whitespace from both ends keeps the non-whitespace text. */
  lemma NonSpaceMiddle(s: string, a: nat, b: nat)
    requires a <= b <= |s|
    requires forall i :: 0 <= i < a ==> IsSpace(s[i])
    requires forall i :: b <= i < |s| ==> IsSpace(s[i])
    ensures NonSpace(s[a..b]) == NonSpace(s)
  {
    var front, middle, back := s[..a], s[a..b], s[b..];
    ThreeSlices(s, a, b);
    NonSpaceAppend(front, middle + back);
    NonSpaceAppend(middle, back);
    NonSpaceOfSpace(front);
    NonSpaceOfSpace(back);
  }

  lemma ThreeSlices(s: string, a: nat, b: nat)
    requires a <= b <= |s|
    ensures s == s[..a] + (s[a..b] + s[b..])
  {
    assert s[a..] == s[a..b] + s[b..];
  }

  /** A piece of the split: it opens with a marker `<digit>)` and holds no other. */
  predicate IsPiece(x: string) {
    |x| >= 2 && MarkerAt(x, 0) && forall j :: 0 < j < |x| ==> !MarkerAt(x, j)
  }

  /** s[p..q] is a piece when p holds a marker and no match starts inside it. */
  lemma PieceBetween(s: string, p: nat, q: nat)
    requires p + 2 <= q <= |s|
    requires MarkerAt(s, p)
    requires forall j :: p < j < q ==> MatchAt(s, j).None?
    ensures IsPiece(s[p..q])
  {
    var x := s[p..q];
    forall j | 0 < j < |x|
      ensures !MarkerAt(x, j)
    {
      assert MatchAt(s, p + j).None?;
    }
  }

  /** Every piece the split produces from a position holding a marker begins with
      that marker and holds no other: the split cuts before every marker. */
  lemma {:induction false} SplitScanPieces(s: string, p: nat, q: nat)
    requires p <= q <= |s|
    requires MarkerAt(s, p)
    requires forall j :: p < j < q ==> MatchAt(s, j).None?
    ensures forall x :: x in SplitScan(s, p, q) ==> IsPiece(x)
    decreases |s| - q, q - p
  {
    if q == |s| {
      PieceBetween(s, p, q);
      assert s[p..q] == s[p..];
      assert SplitScan(s, p, q) == [s[p..]];
    } else {
      match MatchAt(s, q)
      case None =>
        assert SplitScan(s, p, q) == SplitScan(s, p, q + 1);
        SplitScanPieces(s, p, q + 1);
      case Some(e) =>
        if e == p {
          assert SplitScan(s, p, q) == SplitScan(s, p, q + 1);
          SplitScanPieces(s, p, q + 1);
        } else {
          SplitScanPieces(s, e, e);
          PiecesAtCut(s, p, q, e);
        }
    }
  }

  /** The step of SplitScanPieces where the split cuts at q and resumes at e. */
  lemma PiecesAtCut(s: string, p: nat, q: nat, e: nat)
    requires p <= q < |s| && MatchAt(s, q) == Some(e) && e != p
    requires MarkerAt(s, p)
    requires forall j :: p < j < q ==> MatchAt(s, j).None?
    requires forall x :: x in SplitScan(s, e, e) ==> IsPiece(x)
    ensures forall x :: x in SplitScan(s, p, q) ==> IsPiece(x)
  {
    assert MatchAt(s, p) == Some(p);
    assert MatchAt(s, p + 1).None?;
    PieceBetween(s, p, q);
    assert SplitScan(s, p, q) == [s[p..q]] + SplitScan(s, e, e);
  }

  /** The split loses only the whitespace in front of each marker. */
  lemma {:induction false} SplitScanKeepsText(s: string, p: nat, q: nat)
    requires p <= q <= |s|
    ensures NonSpace(Concat(SplitScan(s, p, q))) == NonSpace(s[p..])
    decreases |s| - q, q - p
  {
    if q == |s| {
      ConcatCons(s[p..], []);
      assert s[p..] + [] == s[p..];
    } else {
      match MatchAt(s, q)
      case None =>
        assert SplitScan(s, p, q) == SplitScan(s, p, q + 1);
        SplitScanKeepsText(s, p, q + 1);
      case Some(e) =>
        if e == p {
          assert SplitScan(s, p, q) == SplitScan(s, p, q + 1);
          SplitScanKeepsText(s, p, q + 1);
        } else {
          SplitScanKeepsText(s, e, e);
          KeepsTextAtCut(s, p, q, e);
        }
    }
  }

  /** The step of SplitScanKeepsText where the split cuts at q and resumes at e. */
  lemma KeepsTextAtCut(s: string, p: nat, q: nat, e: nat)
    requires p <= q < |s| && MatchAt(s, q) == Some(e) && e != p
    requires NonSpace(Concat(SplitScan(s, e, e))) == NonSpace(s[e..])
    ensures NonSpace(Concat(SplitScan(s, p, q))) == NonSpace(s[p..])
  {
    var rest := SplitScan(s, e, e);
    assert SplitScan(s, p, q) == [s[p..q]] + rest;
    ConcatCons(s[p..q], rest);
    NonSpaceAppend(s[p..q], Concat(rest));
    NonSpaceGap(s, p, q, e);
  }

  lemma ConcatCons(x: string, xs: seq<string>)
    ensures Concat([x] + xs) == x + Concat(xs)
  {
    assert ([x] + xs)[1..] == xs;
  }

  /** Dropping a whitespace gap s[q..e] does not change the non-whitespace text. */
  lemma NonSpaceGap(s: string, p: nat, q: nat, e: nat)
    requires p <= q <= e <= |s| && AllSpace(s[q..e])
    ensures NonSpace(s[p..]) == NonSpace(s[p..q]) + NonSpace(s[e..])
  {
    assert s[p..] == s[p..q] + s[q..e] + s[e..];
    NonSpaceAppend(s[p..q] + s[q..e], s[e..]);
    NonSpaceAppend(s[p..q], s[q..e]);
    NonSpaceOfSpace(s[q..e]);
  }

  /** Trimming a piece that opens with a marker keeps the marker and cuts only its tail. */
  lemma TrimItem(x: string)
    requires IsPiece(x)
    ensures IsItemLine(Trim(x))
  {
    var r := Trim(x);
    assert SpaceRunEnd(x, 0) == 0;
    assert r == x[..|r|];
    forall j | 0 < j < |r|
      ensures !MarkerAt(r, j)
    {
      assert !MarkerAt(x, j);
    }
  }

  lemma {:induction false} TrimAllItems(xs: seq<string>)
    requires forall x :: x in xs ==> IsPiece(x)
    ensures NonEmpty(TrimAll(xs)) == TrimAll(xs)
    ensures forall y :: y in TrimAll(xs) ==> IsItemLine(y)
    ensures NonSpace(Concat(TrimAll(xs))) == NonSpace(Concat(xs))
    decreases |xs|
  {
    if xs != [] {
      TrimItem(xs[0]);
      TrimAllItems(xs[1..]);
      var t := TrimAll(xs);
      assert t[1..] == TrimAll(xs[1..]);
      NonSpaceAppend(Trim(xs[0]), Concat(t[1..]));
      NonSpaceAppend(xs[0], Concat(xs[1..]));
      NonSpaceTrim(xs[0]);
    }
  }

  /** When "1)" is absent or opens the text, the question is a single line, untouched. */
  lemma SingleLine(question: string)
    requires OccursAt(question, "1)", 0) || forall i :: !OccursAt(question, "1)", i)
    ensures ProcessQuestion(question) == [question]
  {
  }

  /** Otherwise the first line is the trimmed text before the first "1)", and the
      remaining lines are the numbered items: each non-empty, trimmed, opening with
      its marker and holding no other, and together they keep every non-whitespace
      character of the text from "1)" on, in order. */
  lemma {:induction false} NumberedLines(question: string, p: int)
    requires 0 < p && OccursAt(question, "1)", p)
    requires forall i :: 0 <= i < p ==> !OccursAt(question, "1)", i)
    ensures var lines := ProcessQuestion(question);
            && |lines| >= 2
            && lines[0] == Trim(question[..p])
            && (forall i :: 1 <= i < |lines| ==> IsItemLine(lines[i]))
            && NonSpace(Concat(lines[1..])) == NonSpace(question[p..])
  {
    var items := question[p..];
    assert items[..2] == "1)";
    ItemLines(items);
    assert IndexOf(question, "1)", 0) == p;
    var lines := ProcessQuestion(question);
    assert lines == [Trim(question[..p])] + NonEmpty(TrimAll(Split(items)));
    assert lines[1..] == NonEmpty(TrimAll(Split(items)));
  }

  /** The lines made from the text starting at "1)". */
  lemma ItemLines(items: string)
    requires MarkerAt(items, 0)
    ensures var lines := NonEmpty(TrimAll(Split(items)));
            && |lines| >= 1
            && (forall x :: x in lines ==> IsItemLine(x))
            && NonSpace(Concat(lines)) == NonSpace(items)
  {
    TrimAllItems(Split(items));
  }
}
