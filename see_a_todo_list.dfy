/**
 * The acceptance tests' view of the application: a client that asks for a
 * list over the route and reads the list back out of the HTML with two
 * regular expressions, `<h2>(.*)<` for the name and `<td>(.*?)<` for the
 * items. The round trip -- render a list, then parse the page -- gives the
 * list back whenever its texts hold no `<` and no line terminator.
 */
module SeeATodoList {

  import opened Wrappers
  import opened KotlinText
  import opened Zettai

  // ---------------------------------------------------------------------------
  // Regular expressions over one line

  /** The characters a `.` of `java.util.regex` does not match (no flags set). */
  predicate IsLineTerminator(c: char) {
    c == '\n' || c == '\r' || c == '\U{0085}' || c == '\U{2028}' || c == '\U{2029}'
  }

  predicate NoLineTerminator(s: string) {
    forall i :: 0 <= i < |s| ==> !IsLineTerminator(s[i])
  }

  /** Text that the two expressions read back whole: no `<` and no line terminator. */
  predicate Plain(s: string) {
    NoLineTerminator(s) && forall i :: 0 <= i < |s| ==> s[i] != '<'
  }

  /** How far a `.*` can run from the start of `s`: up to the first line terminator. */
  function LineLength(s: string): (n: nat)
    ensures n <= |s|
    decreases |s|
  {
    if s == [] || IsLineTerminator(s[0]) then 0 else 1 + LineLength(s[1..])
  }

  /** `LineLength` stops at the first line terminator and nowhere before it. */
  lemma {:induction false} LineLengthIsFirstTerminator(s: string)
    ensures forall k :: 0 <= k < LineLength(s) ==> !IsLineTerminator(s[k])
    ensures LineLength(s) < |s| ==> IsLineTerminator(s[LineLength(s)])
    decreases |s|
  {
    if s != [] && !IsLineTerminator(s[0]) {
      LineLengthIsFirstTerminator(s[1..]);
    }
  }

  /** Where the lazy `(.*?)<` stops: the first `<` before the end of the line. */
  function FirstLt(s: string): (j: Option<nat>)
    ensures j.Some? ==> j.value < LineLength(s)
    decreases |s|
  {
    if s == [] || IsLineTerminator(s[0]) then None
    else if s[0] == '<' then Some(0)
    else match FirstLt(s[1..])
      case Some(k) => Some(k + 1)
      case None => None
  }

  /** `FirstLt` finds the first `<` of the line, and fails only on a line without one. */
  lemma {:induction false} FirstLtIsFirst(s: string)
    ensures var j := FirstLt(s);
      && (j.Some? ==> s[j.value] == '<' && forall k :: 0 <= k < j.value ==> s[k] != '<')
      && (j.None? ==> forall k :: 0 <= k < LineLength(s) ==> s[k] != '<')
    decreases |s|
  {
    if s != [] && !IsLineTerminator(s[0]) && s[0] != '<' {
      FirstLtIsFirst(s[1..]);
    }
  }

  /** Where the greedy `(.*)<` stops: the last `<` before the end of the line. */
  function LastLt(s: string): (j: Option<nat>)
    ensures j.Some? ==> j.value < LineLength(s)
    decreases |s|
  {
    if s == [] || IsLineTerminator(s[0]) then None
    else match LastLt(s[1..])
      case Some(k) => Some(k + 1)
      case None => if s[0] == '<' then Some(0) else None
  }

  /** `LastLt` finds the last `<` of the line, and fails only on a line without one. */
  lemma {:induction false} LastLtIsLast(s: string)
    ensures var j := LastLt(s);
      && (j.Some? ==> s[j.value] == '<' && forall k :: j.value < k < LineLength(s) ==> s[k] != '<')
      && (j.None? ==> forall k :: 0 <= k < LineLength(s) ==> s[k] != '<')
    decreases |s|
  {
    if s != [] && !IsLineTerminator(s[0]) {
      LastLtIsLast(s[1..]);
    }
  }

  /** `s` starts with `<h2>`. */
  predicate OpensH2(s: string) {
    |s| >= 4 && s[0] == '<' && s[1] == 'h' && s[2] == '2' && s[3] == '>'
  }

  /** `s` starts with `<td>`. */
  predicate OpensTd(s: string) {
    |s| >= 4 && s[0] == '<' && s[1] == 't' && s[2] == 'd' && s[3] == '>'
  }

  /** `<h2>(.*)<` matches `s` at `p`. */
  ghost predicate H2MatchAt(s: string, p: int) {
    0 <= p <= |s| && OpensH2(s[p..]) && LastLt(s[p + 4..]).Some?
  }

  /** The group a match of `<h2>(.*)<` at `p` captures. */
  ghost function H2GroupAt(s: string, p: int): string
    requires H2MatchAt(s, p)
  {
    s[p + 4..][..LastLt(s[p + 4..]).value]
  }

  /** `"<h2>(.*)<".toRegex().find(s)`: the group of the leftmost match, if any. */
  function FindH2(s: string): Option<string>
    decreases |s|
  {
    if |s| < 4 then None
    else if OpensH2(s) && LastLt(s[4..]).Some? then Some(s[4..][..LastLt(s[4..]).value])
    else FindH2(s[1..])
  }

  lemma H2MatchShift(s: string, p: int)
    requires s != [] && 1 <= p
    ensures H2MatchAt(s, p) <==> H2MatchAt(s[1..], p - 1)
    ensures H2MatchAt(s, p) ==> H2GroupAt(s, p) == H2GroupAt(s[1..], p - 1)
  {
    if p <= |s| {
      assert s[1..][p - 1..] == s[p..];
      if p + 4 <= |s| {
        assert s[1..][p + 3..] == s[p + 4..];
      }
    }
  }

  /**
   * `FindH2` is the leftmost-match search: it fails exactly when the
   * expression matches nowhere, and otherwise gives the group of the
   * leftmost match.
   */
  lemma {:induction false} FindH2Leftmost(s: string)
    ensures FindH2(s).None? <==> forall p :: 0 <= p <= |s| ==> !H2MatchAt(s, p)
    ensures forall p :: H2MatchAt(s, p) && (forall q :: 0 <= q < p ==> !H2MatchAt(s, q)) ==>
      FindH2(s) == Some(H2GroupAt(s, p))
    decreases |s|
  {
    if |s| < 4 {
    } else if OpensH2(s) && LastLt(s[4..]).Some? {
      assert H2MatchAt(s, 0);
    } else {
      FindH2Leftmost(s[1..]);
      FindH2LeftmostStep(s);
    }
  }

  /** The step of `FindH2Leftmost` past a position where the expression does not match. */
  lemma FindH2LeftmostStep(s: string)
    requires |s| >= 4 && !(OpensH2(s) && LastLt(s[4..]).Some?)
    requires FindH2(s[1..]).None? <==> forall p :: 0 <= p <= |s[1..]| ==> !H2MatchAt(s[1..], p)
    requires forall p :: H2MatchAt(s[1..], p) && (forall q :: 0 <= q < p ==> !H2MatchAt(s[1..], q)) ==>
      FindH2(s[1..]) == Some(H2GroupAt(s[1..], p))
    ensures FindH2(s).None? <==> forall p :: 0 <= p <= |s| ==> !H2MatchAt(s, p)
    ensures forall p :: H2MatchAt(s, p) && (forall q :: 0 <= q < p ==> !H2MatchAt(s, q)) ==>
      FindH2(s) == Some(H2GroupAt(s, p))
  {
    assert FindH2(s) == FindH2(s[1..]);
    assert !H2MatchAt(s, 0);
    forall p | 1 <= p ensures (H2MatchAt(s, p) <==> H2MatchAt(s[1..], p - 1))
      && (H2MatchAt(s, p) ==> H2GroupAt(s, p) == H2GroupAt(s[1..], p - 1)) {
      H2MatchShift(s, p);
    }
    if FindH2(s).None? {
      forall p | 0 <= p <= |s| ensures !H2MatchAt(s, p) {
        if p > 0 { assert !H2MatchAt(s[1..], p - 1); }
      }
    } else {
      var g := FindH2(s[1..]).value;
      assert exists p :: 0 <= p <= |s[1..]| && H2MatchAt(s[1..], p);
      var p :| 0 <= p <= |s[1..]| && H2MatchAt(s[1..], p);
      assert H2MatchAt(s, p + 1);
    }
    forall p | H2MatchAt(s, p) && (forall q :: 0 <= q < p ==> !H2MatchAt(s, q))
      ensures FindH2(s) == Some(H2GroupAt(s, p)) {
      assert p > 0 && H2MatchAt(s[1..], p - 1);
      forall q | 0 <= q < p - 1 ensures !H2MatchAt(s[1..], q) {
        assert !H2MatchAt(s, q + 1);
      }
    }
  }

  /**
   * `"<td>(.*?)<".toRegex().findAll(s)`, each match's group: the search
   * starts again right after the `<` that ended the previous match.
   */
  function FindTds(s: string): seq<string>
    decreases |s|
  {
    if |s| < 4 then []
    else if OpensTd(s) && FirstLt(s[4..]).Some? then
      var j := FirstLt(s[4..]).value;
      [s[4..4 + j]] + FindTds(s[4 + j + 1..])
    else FindTds(s[1..])
  }

  /** `<td>(.*?)<` matches `s` at `p`. */
  ghost predicate TdMatchAt(s: string, p: int) {
    0 <= p <= |s| && OpensTd(s[p..]) && FirstLt(s[p + 4..]).Some?
  }

  /** The group a match of `<td>(.*?)<` at `p` captures. */
  ghost function TdGroupAt(s: string, p: int): string
    requires TdMatchAt(s, p)
  {
    s[p + 4..][..FirstLt(s[p + 4..]).value]
  }

  /** Where the search resumes after a match of `<td>(.*?)<` at `p`: just past its `<`. */
  ghost function TdEndAt(s: string, p: int): (e: nat)
    requires TdMatchAt(s, p)
    ensures p < e <= |s|
  {
    p + 4 + FirstLt(s[p + 4..]).value + 1
  }

  lemma TdMatchShift(s: string, p: int)
    requires s != [] && 1 <= p
    ensures TdMatchAt(s, p) <==> TdMatchAt(s[1..], p - 1)
    ensures TdMatchAt(s, p) ==> TdGroupAt(s, p) == TdGroupAt(s[1..], p - 1)
    ensures TdMatchAt(s, p) ==> TdEndAt(s, p) == TdEndAt(s[1..], p - 1) + 1
    ensures TdMatchAt(s, p) ==> s[TdEndAt(s, p)..] == s[1..][TdEndAt(s[1..], p - 1)..]
  {
    if p <= |s| {
      assert s[1..][p - 1..] == s[p..];
      if p + 4 <= |s| {
        assert s[1..][p + 3..] == s[p + 4..];
      }
    }
  }

  /**
   * `FindTds` is the `findAll` search: it finds nothing exactly when the
   * expression matches nowhere, and otherwise starts with the group of the
   * leftmost match and goes on from just past that match.
   */
  lemma {:induction false} FindTdsLeftmost(s: string)
    ensures FindTds(s) == [] <==> forall p :: 0 <= p <= |s| ==> !TdMatchAt(s, p)
    ensures forall p :: TdMatchAt(s, p) && (forall q :: 0 <= q < p ==> !TdMatchAt(s, q)) ==>
      FindTds(s) == [TdGroupAt(s, p)] + FindTds(s[TdEndAt(s, p)..])
    decreases |s|
  {
    if |s| < 4 {
    } else if OpensTd(s) && FirstLt(s[4..]).Some? {
      assert TdMatchAt(s, 0);
      FindTdsAt(s, FirstLt(s[4..]).value);
      assert s[4..][..FirstLt(s[4..]).value] == s[4..4 + FirstLt(s[4..]).value];
    } else {
      FindTdsLeftmost(s[1..]);
      FindTdsLeftmostStep(s);
    }
  }

  /** The step of `FindTdsLeftmost` past a position where the expression does not match. */
  lemma FindTdsLeftmostStep(s: string)
    requires |s| >= 4 && !(OpensTd(s) && FirstLt(s[4..]).Some?)
    requires FindTds(s[1..]) == [] <==> forall p :: 0 <= p <= |s[1..]| ==> !TdMatchAt(s[1..], p)
    requires forall p :: TdMatchAt(s[1..], p) && (forall q :: 0 <= q < p ==> !TdMatchAt(s[1..], q)) ==>
      FindTds(s[1..]) == [TdGroupAt(s[1..], p)] + FindTds(s[1..][TdEndAt(s[1..], p)..])
    ensures FindTds(s) == [] <==> forall p :: 0 <= p <= |s| ==> !TdMatchAt(s, p)
    ensures forall p :: TdMatchAt(s, p) && (forall q :: 0 <= q < p ==> !TdMatchAt(s, q)) ==>
      FindTds(s) == [TdGroupAt(s, p)] + FindTds(s[TdEndAt(s, p)..])
  {
    FindTdsPast(s);
    assert !TdMatchAt(s, 0);
    FindTdsNoneStep(s);
    FindTdsFirstStep(s);
  }

  lemma FindTdsNoneStep(s: string)
    requires s != [] && !TdMatchAt(s, 0) && FindTds(s) == FindTds(s[1..])
    requires FindTds(s[1..]) == [] <==> forall p :: 0 <= p <= |s[1..]| ==> !TdMatchAt(s[1..], p)
    ensures FindTds(s) == [] <==> forall p :: 0 <= p <= |s| ==> !TdMatchAt(s, p)
  {
    if FindTds(s) == [] {
      forall p | 0 <= p <= |s| ensures !TdMatchAt(s, p) {
        if p > 0 {
          TdMatchShift(s, p);
        }
      }
    } else {
      var p :| 0 <= p <= |s[1..]| && TdMatchAt(s[1..], p);
      TdMatchShift(s, p + 1);
    }
  }

  lemma FindTdsFirstStep(s: string)
    requires s != [] && !TdMatchAt(s, 0) && FindTds(s) == FindTds(s[1..])
    requires forall p :: TdMatchAt(s[1..], p) && (forall q :: 0 <= q < p ==> !TdMatchAt(s[1..], q)) ==>
      FindTds(s[1..]) == [TdGroupAt(s[1..], p)] + FindTds(s[1..][TdEndAt(s[1..], p)..])
    ensures forall p :: TdMatchAt(s, p) && (forall q :: 0 <= q < p ==> !TdMatchAt(s, q)) ==>
      FindTds(s) == [TdGroupAt(s, p)] + FindTds(s[TdEndAt(s, p)..])
  {
    forall p | TdMatchAt(s, p) && (forall q :: 0 <= q < p ==> !TdMatchAt(s, q))
      ensures FindTds(s) == [TdGroupAt(s, p)] + FindTds(s[TdEndAt(s, p)..]) {
      TdMatchShift(s, p);
      forall q | 0 <= q < p - 1 ensures !TdMatchAt(s[1..], q) {
        TdMatchShift(s, q + 1);
      }
    }
  }

  // ---------------------------------------------------------------------------
  // The client

  /** `extractListName`: the `<h2>` group, or the empty name when nothing matches. */
  function ExtractListName(html: string): (n: ListName)
    ensures FindH2(html).None? ==> n.name == ""
    ensures FindH2(html).Some? ==> n.name == FindH2(html).value
  {
    ListName(FindH2(html).GetOr(""))
  }

  /** `extractItems`: one item per `<td>` match, in the order of the page. */
  function ExtractItems(html: string): (items: seq<ToDoItem>)
    ensures |items| == |FindTds(html)|
    ensures forall i :: 0 <= i < |items| ==> items[i].description == FindTds(html)[i]
  {
    var groups := FindTds(html);
    seq(|groups|, i requires 0 <= i < |groups| => ToDoItem(groups[i]))
  }

  /** `parseResponse`. */
  function ParseResponse(html: string): ToDoList {
    ToDoList(ExtractListName(html), ExtractItems(html))
  }

  // ---------------------------------------------------------------------------
  // Scanning a page

  /** Neither `(.*?)<` nor `(.*)<` looks past a line terminator. */
  lemma {:induction false} LtStopsAtTerminator(a: string, t: char, x: string)
    requires IsLineTerminator(t)
    ensures FirstLt(a + [t] + x) == FirstLt(a)
    ensures LastLt(a + [t] + x) == LastLt(a)
    decreases |a|
  {
    if a != [] {
      assert (a + [t] + x)[1..] == a[1..] + [t] + x;
      LtStopsAtTerminator(a[1..], t, x);
    }
  }

  /** One step of `FindH2` at a position where the expression matches. */
  lemma FindH2At(s: string, j: nat)
    requires OpensH2(s) && LastLt(s[4..]) == Some(j)
    ensures FindH2(s) == Some(s[4..4 + j])
  {
    assert s[4..][..j] == s[4..4 + j];
  }

  /** One step of `FindH2` past a position where the expression does not match. */
  lemma FindH2Past(s: string)
    requires |s| >= 4 && !(OpensH2(s) && LastLt(s[4..]).Some?)
    ensures FindH2(s) == FindH2(s[1..])
  {
  }

  /** One step of `FindTds` at a position where the expression matches. */
  lemma FindTdsAt(s: string, j: nat)
    requires OpensTd(s) && FirstLt(s[4..]) == Some(j)
    ensures FindTds(s) == [s[4..4 + j]] + FindTds(s[4 + j + 1..])
  {
  }

  /** One step of `FindTds` past a position where the expression does not match. */
  lemma FindTdsPast(s: string)
    requires |s| >= 4 && !(OpensTd(s) && FirstLt(s[4..]).Some?)
    ensures FindTds(s) == FindTds(s[1..])
  {
  }

  /** Slicing a line followed by a break and more text, within the line. */
  lemma BreakSlices(l: string, x: string, k: nat, n: nat)
    requires k + n <= |l|
    ensures (l + "\n" + x)[k..] == l[k..] + "\n" + x
    ensures (l + "\n" + x)[k..k + n] == l[k..k + n]
  {
  }

  /** Where a line ends, the search for `<` ends too. */
  lemma BreakHidesRest(l: string, x: string)
    requires |l| >= 4
    ensures OpensH2(l + "\n" + x) == OpensH2(l) && OpensTd(l + "\n" + x) == OpensTd(l)
    ensures LastLt((l + "\n" + x)[4..]) == LastLt(l[4..])
    ensures FirstLt((l + "\n" + x)[4..]) == FirstLt(l[4..])
  {
    BreakSlices(l, x, 4, 0);
    LtStopsAtTerminator(l[4..], '\n', x);
  }

  /** A line too short to hold a tag, then a break: the search resumes on the next line. */
  lemma BreakAfterShort(l: string, x: string)
    requires |l| < 4
    ensures FindH2(l + "\n" + x) == FindH2(x) && FindH2(l) == None
    ensures FindTds(l + "\n" + x) == FindTds(x) && FindTds(l) == []
    decreases |l|
  {
    var s := l + "\n" + x;
    if l == [] {
      assert s == "\n" + x && s[1..] == x;
    } else if |s| >= 4 {
      assert !OpensH2(s) && !OpensTd(s);
      FindH2Past(s);
      FindTdsPast(s);
      BreakSlices(l, x, 1, 0);
      BreakAfterShort(l[1..], x);
    }
  }

  /** No match of `<h2>(.*)<` spans two lines. */
  lemma {:induction false} FindH2Split(l: string, x: string)
    ensures FindH2(l + "\n" + x) == if FindH2(l).Some? then FindH2(l) else FindH2(x)
    decreases |l|
  {
    var s := l + "\n" + x;
    if |l| < 4 {
      BreakAfterShort(l, x);
    } else {
      BreakHidesRest(l, x);
      if OpensH2(l) && LastLt(l[4..]).Some? {
        var j := LastLt(l[4..]).value;
        BreakSlices(l, x, 4, j);
        FindH2At(s, j);
        FindH2At(l, j);
      } else {
        FindH2Past(s);
        FindH2Past(l);
        BreakSlices(l, x, 1, 0);
        FindH2Split(l[1..], x);
      }
    }
  }

  /** No match of `<td>(.*?)<` spans two lines. */
  lemma {:induction false} FindTdsSplit(l: string, x: string)
    ensures FindTds(l + "\n" + x) == FindTds(l) + FindTds(x)
    decreases |l|
  {
    if |l| < 4 {
      BreakAfterShort(l, x);
    } else if OpensTd(l) && FirstLt(l[4..]).Some? {
      var j := FirstLt(l[4..]).value;
      FindTdsSplit(l[4 + j + 1..], x);
      FindTdsSplitAtMatch(l, x, j);
    } else {
      FindTdsSplit(l[1..], x);
      FindTdsSplitPast(l, x);
    }
  }

  lemma FindTdsSplitAtMatch(l: string, x: string, j: nat)
    requires OpensTd(l) && FirstLt(l[4..]) == Some(j)
    requires FindTds(l[4 + j + 1..] + "\n" + x) == FindTds(l[4 + j + 1..]) + FindTds(x)
    ensures FindTds(l + "\n" + x) == FindTds(l) + FindTds(x)
  {
    FindTdsAtBeforeBreak(l, x, j);
  }

  lemma FindTdsAtBeforeBreak(l: string, x: string, j: nat)
    requires OpensTd(l) && FirstLt(l[4..]) == Some(j)
    ensures FindTds(l + "\n" + x) == [l[4..4 + j]] + FindTds(l[4 + j + 1..] + "\n" + x)
  {
    BreakHidesRest(l, x);
    BreakSlices(l, x, 4, j);
    BreakSlices(l, x, 4 + j + 1, 0);
    FindTdsAt(l + "\n" + x, j);
  }

  lemma FindTdsSplitPast(l: string, x: string)
    requires |l| >= 4 && !(OpensTd(l) && FirstLt(l[4..]).Some?)
    requires FindTds(l[1..] + "\n" + x) == FindTds(l[1..]) + FindTds(x)
    ensures FindTds(l + "\n" + x) == FindTds(l) + FindTds(x)
  {
    var s := l + "\n" + x;
    BreakHidesRest(l, x);
    BreakSlices(l, x, 1, 0);
    FindTdsPast(s);
    FindTdsPast(l);
  }

  /** A stretch of text without `<` starts no match. */
  lemma {:induction false} SkipPlain(a: string, x: string)
    requires '<' !in a
    ensures FindH2(a + x) == FindH2(x)
    ensures FindTds(a + x) == FindTds(x)
    decreases |a|
  {
    if a == [] {
      assert a + x == x;
    } else {
      assert a == [a[0]] + a[1..];
      SkipPlainStep(a, x);
      SkipPlain(a[1..], x);
    }
  }

  lemma SkipPlainStep(a: string, x: string)
    requires a != [] && a[0] != '<'
    ensures FindH2(a + x) == FindH2(a[1..] + x)
    ensures FindTds(a + x) == FindTds(a[1..] + x)
  {
    var s := a + x;
    assert s[1..] == a[1..] + x;
    if |s| >= 4 {
      FindH2Past(s);
      FindTdsPast(s);
    }
  }

  /** A tag with no further `<` starts no match unless it is the expression's own opening tag. */
  lemma SkipTag(t: string, x: string)
    requires |t| >= 4 && t[0] == '<' && '<' !in t[1..]
    ensures !OpensH2(t) ==> FindH2(t + x) == FindH2(x)
    ensures !OpensTd(t) ==> FindTds(t + x) == FindTds(x)
  {
    var s := t + x;
    assert s[1..] == t[1..] + x;
    SkipPlain(t[1..], x);
    if !OpensH2(t) {
      assert !OpensH2(s);
      FindH2Past(s);
    }
    if !OpensTd(t) {
      assert !OpensTd(s);
      FindTdsPast(s);
    }
  }

  /** A lazy `(.*?)<` over text without `<` or a line terminator stops at the `<` after it. */
  lemma {:induction false} FirstLtAfterPlain(c: string, y: string)
    requires Plain(c) && y != [] && y[0] == '<'
    ensures FirstLt(c + y) == Some(|c|)
    decreases |c|
  {
    if c == [] {
      assert c + y == y;
    } else {
      assert (c + y)[1..] == c[1..] + y;
      FirstLtAfterPlain(c[1..], y);
    }
  }

  /** A greedy `(.*)<` over one line stops at the last `<` of that line. */
  lemma {:induction false} LastLtBeforePlain(c: string, y: string)
    requires NoLineTerminator(c) && y != [] && y[0] == '<' && Plain(y[1..])
    ensures LastLt(c + y) == Some(|c|)
    decreases |c|
  {
    if c == [] {
      assert c + y == y;
      LastLtIsLast(y[1..]);
    } else {
      assert (c + y)[1..] == c[1..] + y;
      LastLtBeforePlain(c[1..], y);
    }
  }

  /** The expression for items reads one table row as one item, the row's cell text. */
  lemma RowCell(c: string, x: string)
    requires Plain(c)
    ensures FindTds("<tr><td>" + c + "</td></tr>" + x) == [c] + FindTds(x)
  {
    var cell := "<td>" + c + "</td></tr>" + x;
    RowSplit(c, x);
    SkipTag("<tr>", cell);
    CellText(c, x);
  }

  /** A row opens with `<tr>`, followed by its cell. */
  lemma RowSplit(c: string, x: string)
    ensures "<tr><td>" + c + "</td></tr>" + x == "<tr>" + ("<td>" + c + "</td></tr>" + x)
  {
  }

  lemma CellText(c: string, x: string)
    requires Plain(c)
    ensures FindTds("<td>" + c + "</td></tr>" + x) == [c] + FindTds(x)
  {
    var cell := "<td>" + c + "</td></tr>" + x;
    CellMatch(c, x);
    CellEnd(x);
  }

  /** A `<td>` match over a plain cell captures the cell and resumes at its closing tag. */
  lemma CellMatch(c: string, x: string)
    requires Plain(c)
    ensures FindTds("<td>" + c + "</td></tr>" + x) == [c] + FindTds("/td></tr>" + x)
  {
    var cell := "<td>" + c + "</td></tr>" + x;
    CellSlices(c, x);
    FirstLtAfterPlain(c, "</td></tr>" + x);
    FindTdsAt(cell, |c|);
  }

  /** Where the cell, its closing `<` and what follows it sit within a cell. */
  lemma CellSlices(c: string, x: string)
    ensures var cell := "<td>" + c + "</td></tr>" + x;
      && OpensTd(cell)
      && cell[4..] == c + ("</td></tr>" + x)
      && cell[4..4 + |c|] == c
      && cell[4 + |c| + 1..] == "/td></tr>" + x
  {
  }

  /** The rest of a cell's closing tag and the row's closing tag hold no match. */
  lemma CellEnd(x: string)
    ensures FindTds("/td></tr>" + x) == FindTds(x)
  {
    assert "/td></tr>" + x == "/td>" + ("</tr>" + x);
    SkipPlain("/td>", "</tr>" + x);
    SkipTag("</tr>", x);
  }

  /** The first row, then the other rows, then what follows. */
  lemma TableRowsCons(cells: seq<string>, x: string)
    requires cells != []
    ensures TableRows(cells) + x == "<tr><td>" + cells[0] + "</td></tr>" + (TableRows(cells[1..]) + x)
  {
  }

  /** The expression for items reads the table rows back as their cell texts, in order. */
  lemma {:induction false} TableRowsCells(cells: seq<string>, x: string)
    requires forall i :: 0 <= i < |cells| ==> Plain(cells[i])
    ensures FindTds(TableRows(cells) + x) == cells + FindTds(x)
    decreases |cells|
  {
    if cells == [] {
      assert TableRows(cells) + x == x;
    } else {
      TableRowsCells(cells[1..], x);
      TableRowsCellsStep(cells, x);
    }
  }

  lemma TableRowsCellsStep(cells: seq<string>, x: string)
    requires cells != [] && Plain(cells[0])
    requires FindTds(TableRows(cells[1..]) + x) == cells[1..] + FindTds(x)
    ensures FindTds(TableRows(cells) + x) == cells + FindTds(x)
  {
    FirstRowCell(cells, x);
    ConsConcat(FindTds(TableRows(cells) + x), FindTds(TableRows(cells[1..]) + x), FindTds(x), cells);
  }

  lemma FirstRowCell(cells: seq<string>, x: string)
    requires cells != [] && Plain(cells[0])
    ensures FindTds(TableRows(cells) + x) == [cells[0]] + FindTds(TableRows(cells[1..]) + x)
  {
    TableRowsCons(cells, x);
    RowCell(cells[0], TableRows(cells[1..]) + x);
  }

  /** A one-element head, then the rest of the items, then a tail, is the items followed by the tail. */
  lemma ConsConcat<T>(whole: seq<T>, rest: seq<T>, tail: seq<T>, items: seq<T>)
    requires items != [] && whole == [items[0]] + rest && rest == items[1..] + tail
    ensures whole == items + tail
  {
    assert items == [items[0]] + items[1..];
  }

  // ---------------------------------------------------------------------------
  // Scanning the page line by line

  /** Joining two or more lines puts the first line, a "\n" and the join of the rest. */
  lemma JoinStep(ls: seq<string>)
    requires |ls| >= 2
    ensures JoinToString(ls, "\n") == ls[0] + "\n" + JoinToString(ls[1..], "\n")
  {
  }

  /** Lines none of which holds a match of `<td>(.*?)<` give none when joined. */
  lemma {:induction false} NoCellsInLines(ls: seq<string>)
    requires forall i :: 0 <= i < |ls| ==> FindTds(ls[i]) == []
    ensures FindTds(JoinToString(ls, "\n")) == []
    decreases |ls|
  {
    if |ls| >= 2 {
      JoinStep(ls);
      FindTdsSplit(ls[0], JoinToString(ls[1..], "\n"));
      NoCellsInLines(ls[1..]);
    }
  }

  /** When only line `k` holds matches of `<td>(.*?)<`, the joined lines give exactly those. */
  lemma {:induction false} CellsOfOneLine(ls: seq<string>, k: nat)
    requires k < |ls|
    requires forall i :: 0 <= i < |ls| && i != k ==> FindTds(ls[i]) == []
    ensures FindTds(JoinToString(ls, "\n")) == FindTds(ls[k])
    decreases |ls|
  {
    if |ls| >= 2 {
      JoinStep(ls);
      FindTdsSplit(ls[0], JoinToString(ls[1..], "\n"));
      if k == 0 {
        NoCellsInLines(ls[1..]);
        EmptyConcatRight(FindTds(ls[0]), FindTds(JoinToString(ls[1..], "\n")));
      } else {
        CellsOfOneLine(ls[1..], k - 1);
      }
    }
  }

  /** When only lines `j < k` hold matches of `<td>(.*?)<`, the joined lines give those of `j`, then those of `k`. */
  lemma {:induction false} CellsOfTwoLines(ls: seq<string>, j: nat, k: nat)
    requires j < k < |ls|
    requires forall i :: 0 <= i < |ls| && i != j && i != k ==> FindTds(ls[i]) == []
    ensures FindTds(JoinToString(ls, "\n")) == FindTds(ls[j]) + FindTds(ls[k])
    decreases |ls|
  {
    JoinStep(ls);
    FindTdsSplit(ls[0], JoinToString(ls[1..], "\n"));
    if j == 0 {
      CellsOfOneLine(ls[1..], k - 1);
    } else {
      CellsOfTwoLines(ls[1..], j - 1, k - 1);
      assert FindTds(ls[0]) == [];
    }
  }

  /** Appending nothing leaves a sequence as it is. */
  lemma EmptyConcatRight<T>(x: seq<T>, y: seq<T>)
    requires y == []
    ensures x + y == x
  {
  }

  /** The first line holding a match of `<h2>(.*)<` decides the search over the joined lines. */
  lemma {:induction false} NameOfLines(ls: seq<string>, k: nat)
    requires k < |ls|
    requires forall i :: 0 <= i < k ==> FindH2(ls[i]).None?
    requires FindH2(ls[k]).Some?
    ensures FindH2(JoinToString(ls, "\n")) == FindH2(ls[k])
    decreases |ls|
  {
    if |ls| >= 2 {
      JoinStep(ls);
      FindH2Split(ls[0], JoinToString(ls[1..], "\n"));
      if k > 0 {
        NameOfLines(ls[1..], k - 1);
      }
    }
  }

  /** The indentation of a line starts no match. */
  lemma IndentedLine(n: nat, c: string)
    ensures FindH2(Indent(n) + c) == FindH2(c)
    ensures FindTds(Indent(n) + c) == FindTds(c)
  {
    assert '<' !in Indent(n);
    SkipPlain(Indent(n), c);
  }

  /** A line holding one tag other than `<h2>` and `<td>` holds no match. */
  lemma TagLine(t: string)
    requires |t| >= 4 && t[0] == '<' && '<' !in t[1..] && !OpensH2(t) && !OpensTd(t)
    ensures FindH2(t) == None && FindTds(t) == []
  {
    SkipTag(t, "");
    assert t + "" == t;
  }

  /** The `<h1>` line holds no match. */
  lemma TitleLine()
    ensures FindH2("<h1>Zettai</h1>") == None
    ensures FindTds("<h1>Zettai</h1>") == []
  {
    TitleSplit();
    SkipTag("<h1>Zettai", "</h1>");
    TagLine("</h1>");
  }

  /** The title line is its opening tag and text, then the closing tag. */
  lemma TitleSplit()
    ensures "<h1>Zettai</h1>" == "<h1>Zettai" + "</h1>"
  {
  }

  /** The `<h2>` line gives the name to the expression for names and, without `<` in the name, holds no item. */
  lemma NameLine(name: string)
    requires NoLineTerminator(name)
    ensures FindH2("<h2>" + name + "</h2>") == Some(name)
    ensures '<' !in name ==> FindTds("<h2>" + name + "</h2>") == []
  {
    var c := "<h2>" + name + "</h2>";
    assert c[4..] == name + "</h2>";
    assert Plain("</h2>"[1..]);
    LastLtBeforePlain(name, "</h2>");
    FindH2At(c, |name|);
    assert c[4..4 + |name|] == name;
    if '<' !in name {
      NameHeadingHasNoCell(name);
    }
  }

  lemma NameHeadingHasNoCell(name: string)
    requires '<' !in name
    ensures FindTds("<h2>" + name + "</h2>") == []
  {
    var t := "<h2>" + name;
    assert "<h2>" + name + "</h2>" == t + "</h2>";
    assert t[1..] == "h2>" + name;
    SkipTag(t, "</h2>");
    TagLine("</h2>");
  }

  /** The `<tbody>` line gives the rows' cell texts to the expression for items. */
  lemma BodyLine(cells: seq<string>)
    requires forall i :: 0 <= i < |cells| ==> Plain(cells[i])
    ensures FindTds("<tbody>" + TableRows(cells) + "</tbody>") == cells
  {
    ClosingBodyTag();
    TableRowsCells(cells, "</tbody>");
    BodyOfRows(TableRows(cells), cells);
  }

  /** `</tbody>` holds no `<td>` match. */
  lemma ClosingBodyTag()
    ensures FindTds("</tbody>") == []
  {
    TagLine("</tbody>");
  }

  lemma BodyOfRows(rows: string, cells: seq<string>)
    requires FindTds(rows + "</tbody>") == cells + FindTds("</tbody>") && FindTds("</tbody>") == []
    ensures FindTds("<tbody>" + rows + "</tbody>") == cells
  {
    assert "<tbody>" + rows + "</tbody>" == "<tbody>" + (rows + "</tbody>");
    SkipTag("<tbody>", rows + "</tbody>");
    EmptyConcatRight(cells, FindTds("</tbody>"));
  }

  // ---------------------------------------------------------------------------
  // Scanning the rendered page

  /** Each line of the page matches as its content does: the indentation adds nothing. */
  lemma PageLinesAsContents(name: string, rows: string)
    ensures var ls := PageLines(name, rows); var cs := PageContents(name, rows);
      |ls| == |cs| == 9 && forall i :: 0 <= i < 9 ==> FindH2(ls[i]) == FindH2(cs[i]) && FindTds(ls[i]) == FindTds(cs[i])
  {
    var ls := PageLines(name, rows);
    var cs := PageContents(name, rows);
    forall i | 0 <= i < 9 ensures FindH2(ls[i]) == FindH2(cs[i]) && FindTds(ls[i]) == FindTds(cs[i]) {
      IndentedLine(PageIndents[i], cs[i]);
    }
  }

  /** The first four lines of the page: three fixed tags, then the heading with the name. */
  lemma ContentsName(name: string, rows: string)
    requires NoLineTerminator(name)
    ensures var cs := PageContents(name, rows);
      cs[0] == "<html>" && cs[1] == "<body>" && cs[2] == "<h1>Zettai</h1>" && cs[3] == "<h2>" + name + "</h2>"
  {
  }

  /** `<h2>(.*)<` finds the list's name on the page, whatever the rows. */
  lemma PageName(name: string, rows: string)
    requires NoLineTerminator(name)
    ensures FindH2(Page(name, rows)) == Some(name)
  {
    var ls := PageLines(name, rows);
    PageLinesAsContents(name, rows);
    ContentsName(name, rows);
    HeadLinesHaveNoName();
    NameLine(name);
    assert FindH2(ls[0]).None?;
    assert FindH2(ls[1]).None?;
    assert FindH2(ls[2]).None?;
    assert FindH2(ls[3]) == Some(name);
    NameOnFourthLine(ls);
  }

  lemma HeadLinesHaveNoName()
    ensures FindH2("<html>") == None && FindH2("<body>") == None && FindH2("<h1>Zettai</h1>") == None
  {
    TagLine("<html>");
    TagLine("<body>");
    TitleLine();
  }

  lemma NameOnFourthLine(ls: seq<string>)
    requires |ls| >= 4 && FindH2(ls[0]).None? && FindH2(ls[1]).None? && FindH2(ls[2]).None? && FindH2(ls[3]).Some?
    ensures FindH2(JoinToString(ls, "\n")) == FindH2(ls[3])
  {
    forall i | 0 <= i < 3 ensures FindH2(ls[i]).None? {
      if i == 0 {
      } else if i == 1 {
      } else {
      }
    }
    NameOfLines(ls, 3);
  }

  /** Every line of the page but the table body. */
  lemma ContentsOtherThanBody(name: string, rows: string)
    ensures var cs := PageContents(name, rows);
      && cs[0] == "<html>" && cs[1] == "<body>" && cs[2] == "<h1>Zettai</h1>" && cs[3] == "<h2>" + name + "</h2>"
      && cs[4] == "<table>" && cs[6] == "</table>" && cs[7] == "</body>" && cs[8] == "</html>"
  {
  }

  lemma StaticLinesHaveNoCells()
    ensures FindTds("<html>") == [] && FindTds("<body>") == [] && FindTds("<h1>Zettai</h1>") == []
    ensures FindTds("<table>") == [] && FindTds("</table>") == [] && FindTds("</body>") == [] && FindTds("</html>") == []
  {
    OpeningTagsHaveNoCells();
    TitleLine();
    ClosingTagsHaveNoCells();
  }

  /** The opening tags hold no `<td>` match. */
  lemma OpeningTagsHaveNoCells()
    ensures FindTds("<html>") == [] && FindTds("<body>") == [] && FindTds("<table>") == []
  {
    TagLine("<html>");
    TagLine("<body>");
    TagLine("<table>");
  }

  /** The closing tags hold no `<td>` match. */
  lemma ClosingTagsHaveNoCells()
    ensures FindTds("</table>") == [] && FindTds("</body>") == [] && FindTds("</html>") == []
  {
    TagLine("</table>");
    TagLine("</body>");
    TagLine("</html>");
  }

  lemma CellsOnSixthLine(ls: seq<string>)
    requires |ls| == 9
    requires FindTds(ls[0]) == [] && FindTds(ls[1]) == [] && FindTds(ls[2]) == [] && FindTds(ls[3]) == []
    requires FindTds(ls[4]) == [] && FindTds(ls[6]) == [] && FindTds(ls[7]) == [] && FindTds(ls[8]) == []
    ensures FindTds(JoinToString(ls, "\n")) == FindTds(ls[5])
  {
    CellsOfOneLine(ls, 5);
  }

  /**
   * A name the page gives back whole and that adds no item: it holds no
   * line terminator, and `<td>(.*?)<` finds nothing in its `<h2>` line.
   */
  predicate NameSurvives(name: string) {
    NoLineTerminator(name) && FindTds("<h2>" + name + "</h2>") == []
  }

  /** A plain name survives the trip. */
  lemma PlainNameSurvives(name: string)
    requires Plain(name)
    ensures NameSurvives(name)
  {
    NameLine(name);
  }

  /** `<td>(.*?)<` finds the cell texts of the page's rows, in order. */
  lemma PageCells(name: string, cells: seq<string>)
    requires NameSurvives(name)
    requires forall i :: 0 <= i < |cells| ==> Plain(cells[i])
    ensures FindTds(Page(name, TableRows(cells))) == cells
  {
    var ls := PageLines(name, TableRows(cells));
    HeadLinesHoldNoCells(name, TableRows(cells));
    TailLinesHoldNoCells(name, TableRows(cells));
    BodyLineHoldsCells(name, cells);
    CellsOnSixthLine(ls);
  }

  /**
   * Whatever the name, `<td>(.*?)<` finds on the page the matches of the
   * `<h2>` line, then the cell texts of the rows.
   */
  lemma PageCellsAfterHeading(name: string, cells: seq<string>)
    requires forall i :: 0 <= i < |cells| ==> Plain(cells[i])
    ensures FindTds(Page(name, TableRows(cells))) == FindTds("<h2>" + name + "</h2>") + cells
  {
    var ls := PageLines(name, TableRows(cells));
    FixedLinesHoldNoCells(name, TableRows(cells));
    TailLinesHoldNoCells(name, TableRows(cells));
    BodyLineHoldsCells(name, cells);
    CellsOfTwoLines(ls, 3, 5);
  }

  /** Apart from the heading, the lines before the table body hold no match, and the heading holds its content's. */
  lemma FixedLinesHoldNoCells(name: string, rows: string)
    ensures var ls := PageLines(name, rows);
      && FindTds(ls[0]) == [] && FindTds(ls[1]) == [] && FindTds(ls[2]) == [] && FindTds(ls[4]) == []
      && FindTds(ls[3]) == FindTds("<h2>" + name + "</h2>")
  {
    PageLinesAsContents(name, rows);
    ContentsOtherThanBody(name, rows);
    StaticLinesHaveNoCells();
  }

  lemma HeadLinesHoldNoCells(name: string, rows: string)
    requires NameSurvives(name)
    ensures var ls := PageLines(name, rows);
      FindTds(ls[0]) == [] && FindTds(ls[1]) == [] && FindTds(ls[2]) == [] && FindTds(ls[3]) == [] && FindTds(ls[4]) == []
  {
    PageLinesAsContents(name, rows);
    ContentsOtherThanBody(name, rows);
    StaticLinesHaveNoCells();
  }

  lemma TailLinesHoldNoCells(name: string, rows: string)
    ensures var ls := PageLines(name, rows);
      FindTds(ls[6]) == [] && FindTds(ls[7]) == [] && FindTds(ls[8]) == []
  {
    PageLinesAsContents(name, rows);
    ContentsOtherThanBody(name, rows);
    StaticLinesHaveNoCells();
  }

  lemma BodyLineHoldsCells(name: string, cells: seq<string>)
    requires forall i :: 0 <= i < |cells| ==> Plain(cells[i])
    ensures FindTds(PageLines(name, TableRows(cells))[5]) == cells
  {
    BodyLine(cells);
    BodyLineOfRows(name, TableRows(cells), cells);
  }

  lemma BodyLineOfRows(name: string, rows: string, cells: seq<string>)
    requires FindTds("<tbody>" + rows + "</tbody>") == cells
    ensures FindTds(PageLines(name, rows)[5]) == cells
  {
    IndentedLine(8, "<tbody>" + rows + "</tbody>");
  }

  // ---------------------------------------------------------------------------
  // The round trip

  lemma PlainIsUnbroken(s: string)
    requires Plain(s)
    ensures NoLineBreak(s)
  {
  }

  /**
   * Reading a rendered page gives back the list whenever no description
   * holds a `<` or a line terminator and the name survives: a plain name
   * does, and so does a name with `<` unless its heading forms a `<td>` match.
   */
  lemma RenderThenParse(todoList: ToDoList)
    requires NameSurvives(todoList.listName.name)
    requires forall i :: 0 <= i < |todoList.items| ==> Plain(todoList.items[i].description)
    ensures ParseResponse(RenderHtml(todoList).raw) == todoList
  {
    var items := todoList.items;
    assert NoLineBreak(todoList.listName.name);
    forall i | 0 <= i < |items| ensures NoLineBreak(items[i].description) {
      PlainIsUnbroken(items[i].description);
    }
    RenderHtmlLayout(todoList);
    ParsePage(todoList.listName.name, items);
  }

  /** Parsing the page of a surviving name and items whose texts are plain gives them back. */
  lemma ParsePage(name: string, items: seq<ToDoItem>)
    requires NameSurvives(name)
    requires forall i :: 0 <= i < |items| ==> Plain(items[i].description)
    ensures ParseResponse(Page(name, TableRows(Descriptions(items)))) == ToDoList(ListName(name), items)
  {
    var cells := Descriptions(items);
    var page := Page(name, TableRows(cells));
    PageName(name, TableRows(cells));
    PageCells(name, cells);
    var parsed := ExtractItems(page);
    assert |parsed| == |items|;
    forall i | 0 <= i < |items| ensures parsed[i] == items[i] {
      assert parsed[i].description == cells[i];
    }
  }

  /**
   * The greedy `<h2>(.*)<` reads back any name without a line terminator,
   * `<` included, whatever the descriptions hold.
   */
  lemma RenderThenExtractName(todoList: ToDoList)
    requires NoLineTerminator(todoList.listName.name)
    ensures ExtractListName(RenderHtml(todoList).raw) == todoList.listName
  {
    assert NoLineBreak(todoList.listName.name);
    RenderHtmlOpening(todoList);
    OpeningHoldsName(RenderedLines(todoList), RenderedDedent(todoList), todoList.listName.name);
  }

  /** Lines opening with the page's first four lines, dedented alike, give the name to `<h2>(.*)<`. */
  lemma OpeningHoldsName(out: seq<string>, m: nat, name: string)
    requires NoLineTerminator(name)
    requires OpensWithHeading(out, m, name)
    ensures FindH2(JoinToString(out, "\n")) == Some(name)
  {
    var cs := PageContents(name, "");
    ContentsName(name, "");
    forall i | 0 <= i < 4 ensures FindH2(out[i]) == FindH2(cs[i]) {
      IndentedLine(12 + PageIndents[i] - m, cs[i]);
    }
    HeadLinesHaveNoName();
    NameLine(name);
    NameOnFourthLine(out);
  }

  /** The text before the first `<` of a line holds no `<` and no line terminator. */
  lemma TextBeforeFirstLt(t: string, j: nat)
    requires FirstLt(t) == Some(j)
    ensures Plain(t[..j])
  {
    FirstLtIsFirst(t);
    LineLengthIsFirstTerminator(t);
  }

  /** The text before the last `<` of a line holds no line terminator. */
  lemma TextBeforeLastLt(t: string, j: nat)
    requires LastLt(t) == Some(j)
    ensures NoLineTerminator(t[..j])
  {
    LineLengthIsFirstTerminator(t);
  }

  lemma AllPlainCons(g: string, rest: seq<string>)
    requires Plain(g) && forall i :: 0 <= i < |rest| ==> Plain(rest[i])
    ensures forall i :: 0 <= i < |[g] + rest| ==> Plain(([g] + rest)[i])
  {
  }

  /** Every item `<td>(.*?)<` reads holds no `<` and no line terminator. */
  lemma {:induction false} CellsArePlain(s: string)
    ensures forall i :: 0 <= i < |FindTds(s)| ==> Plain(FindTds(s)[i])
    decreases |s|
  {
    if |s| < 4 {
    } else if OpensTd(s) && FirstLt(s[4..]).Some? {
      var j := FirstLt(s[4..]).value;
      FindTdsAt(s, j);
      TextBeforeFirstLt(s[4..], j);
      assert s[4..][..j] == s[4..4 + j];
      CellsArePlain(s[4 + j + 1..]);
      AllPlainCons(s[4..4 + j], FindTds(s[4 + j + 1..]));
    } else {
      FindTdsPast(s);
      CellsArePlain(s[1..]);
    }
  }

  /** The name `<h2>(.*)<` reads holds no line terminator. */
  lemma {:induction false} NameIsUnbroken(s: string)
    ensures FindH2(s).Some? ==> NoLineTerminator(FindH2(s).value)
    decreases |s|
  {
    if |s| < 4 {
    } else if OpensH2(s) && LastLt(s[4..]).Some? {
      TextBeforeLastLt(s[4..], LastLt(s[4..]).value);
    } else {
      FindH2Past(s);
      NameIsUnbroken(s[1..]);
    }
  }

  /**
   * For a list whose name survives, reading its page back gives the list
   * exactly when every description is plain: a `<` or a line terminator in
   * a description never survives the trip.
   */
  lemma RoundTripExactlyForPlainItems(todoList: ToDoList)
    requires NameSurvives(todoList.listName.name)
    ensures ParseResponse(RenderHtml(todoList).raw) == todoList
      <==> forall i :: 0 <= i < |todoList.items| ==> Plain(todoList.items[i].description)
  {
    var parsed := ParseResponse(RenderHtml(todoList).raw);
    CellsArePlain(RenderHtml(todoList).raw);
    if forall i :: 0 <= i < |todoList.items| ==> Plain(todoList.items[i].description) {
      RenderThenParse(todoList);
    }
  }

  /**
   * For a list whose name has no line terminator and whose descriptions are
   * plain, reading its page back gives the list exactly when the name
   * survives: a `<td>` match in the `<h2>` line adds items before the list's own.
   */
  lemma RoundTripExactlyForSurvivingNames(todoList: ToDoList)
    requires NoLineTerminator(todoList.listName.name)
    requires forall i :: 0 <= i < |todoList.items| ==> Plain(todoList.items[i].description)
    ensures ParseResponse(RenderHtml(todoList).raw) == todoList <==> NameSurvives(todoList.listName.name)
  {
    var name := todoList.listName.name;
    var items := todoList.items;
    if NameSurvives(name) {
      RenderThenParse(todoList);
    } else {
      assert NoLineBreak(name);
      forall i | 0 <= i < |items| ensures NoLineBreak(items[i].description) {
        PlainIsUnbroken(items[i].description);
      }
      RenderHtmlLayout(todoList);
      PageCellsAfterHeading(name, Descriptions(items));
      assert |ExtractItems(RenderHtml(todoList).raw)| > |items|;
    }
  }

  /** A name may hold `<` and still survive: "a<b" forms no `<td>` match in its heading. */
  lemma NameWithLtSurvives()
    ensures NameSurvives("a<b")
  {
    NameWithLtUnbroken();
    assert "a<b" == "a" + "<" + "b";
    assert ("<" + "b" + "</h2>")[..4] == "<b</";
    OneLtHeading("a", "b");
  }

  /** "a<b" holds no line terminator. */
  lemma NameWithLtUnbroken()
    ensures NoLineTerminator("a<b")
  {
    assert forall i :: 0 <= i < 3 ==> "a<b"[i] in "a<b";
  }

  /** A heading whose name holds one `<`, not opening `<td>`, holds no `<td>` match. */
  lemma OneLtHeading(a: string, b: string)
    requires '<' !in a && '<' !in b
    requires ("<" + b + "</h2>")[..4] != "<td>"
    ensures FindTds("<h2>" + (a + "<" + b) + "</h2>") == []
  {
    var t := "<h2>" + a;
    var u := "<" + b + "</h2>";
    assert "<h2>" + (a + "<" + b) + "</h2>" == t + u;
    assert t[1..] == "h2>" + a;
    SkipTag(t, u);
    FindTdsPast(u);
    assert u[1..] == b + "</h2>";
    SkipPlain(b, "</h2>");
    TagLine("</h2>");
  }

  /** The list named "a<b" holding the item "x" survives the round trip. */
  lemma NameWithLtRoundTrip()
    ensures ParseResponse(RenderHtml(ToDoList(ListName("a<b"), [ToDoItem("x")])).raw)
         == ToDoList(ListName("a<b"), [ToDoItem("x")])
  {
    NameWithLtSurvives();
    PlainByMembership("x");
    RenderThenParse(ToDoList(ListName("a<b"), [ToDoItem("x")]));
  }

  // ---------------------------------------------------------------------------
  // The test client

  /**
   * Text that the model takes the client's URL `/todo/$user/$listName` to
   * carry unchanged as one path segment: not empty, not a dot-segment, and
   * no `/`, no start of a query or fragment, no percent-escape.
   */
  predicate SegmentSafe(s: string) {
    s != [] && s != "." && s != ".." && '/' !in s && '?' !in s && '#' !in s && '%' !in s
  }

  /**
   * The path parameters the route captures from `GET /todo/{user}/{list}`
   * when both texts are segment-safe: each text as its own segment.
   */
  function ListRequest(user: string, listName: string): (request: Request)
    ensures ExtractListData(request) == (User(user), ListName(listName))
  {
    assert "user" != "list" by { assert "user"[0] != "list"[0]; }
    Request(map["user" := user, "list" := listName])
  }

  /**
   * `getToDoList` of the acceptance tests: ask for the list and, on `OK`,
   * parse the page; any other outcome fails the test step, here `None`.
   */
  function GetToDoList(lists: Lists, user: string, listName: string): Option<ToDoList> {
    match ShowList(lists, ListRequest(user, listName))
    case Success(response) => if response.status == OK then Some(ParseResponse(response.body)) else None
    case Failure(_) => None
  }

  /**
   * The client gets a list exactly when the store holds one of that name for
   * that user, under `ListRequest`'s assumption that each text arrives as its
   * own path segment (see `SegmentSafe`).
   */
  lemma GetSucceedsWhenFetchDoes(lists: Lists, user: string, listName: string)
    ensures GetToDoList(lists, user, listName).Some? <==> FetchListContent(lists, (User(user), ListName(listName))).Success?
  {
  }

  /**
   * An owner sees their list exactly as stored, when the owner's name and
   * the list's name travel unchanged as path segments, the name survives the
   * page and no description holds a `<` or a line terminator.
   */
  lemma OwnerSeesList(lists: Lists, owner: User, l: ToDoList)
    requires FetchListContent(lists, (owner, l.listName)) == Success(l)
    requires SegmentSafe(owner.name) && SegmentSafe(l.listName.name)
    requires NameSurvives(l.listName.name)
    requires forall i :: 0 <= i < |l.items| ==> Plain(l.items[i].description)
    ensures GetToDoList(lists, owner.name, l.listName.name) == Some(l)
  {
    RenderThenParse(l);
  }

  /**
   * Anyone asking for a list the store does not file under them sees nothing,
   * under `ListRequest`'s assumption that each text arrives as its own path
   * segment (see `SegmentSafe`).
   */
  lemma NonOwnerSeesNothing(lists: Lists, user: string, listName: string)
    requires User(user) !in lists || forall m :: m in lists[User(user)] ==> m.listName.name != listName
    ensures GetToDoList(lists, user, listName) == None
  {
  }

  // ---------------------------------------------------------------------------
  // The acceptance scenarios

  const Frank := User("Frank")
  const Bob := User("Bob")
  const ShoppingList := ToDoList(ListName("shopping"), [ToDoItem("carrots"), ToDoItem("apples"), ToDoItem("milk")])
  const GardenList := ToDoList(ListName("gardening"), [ToDoItem("fix the fence"), ToDoItem("mowing the lawn")])

  /** The store the scenarios start the application with. */
  const ScenarioLists: Lists := map[Frank := [ShoppingList], Bob := [GardenList]]

  /** Plain text, checked character class by character class. */
  lemma PlainByMembership(s: string)
    requires '<' !in s && '\n' !in s && '\r' !in s
    requires '\U{0085}' !in s && '\U{2028}' !in s && '\U{2029}' !in s
    ensures Plain(s)
  {
    forall i | 0 <= i < |s| ensures s[i] != '<' && !IsLineTerminator(s[i]) {
      assert s[i] in s;
    }
  }

  lemma ShoppingTextsArePlain()
    ensures Plain(ShoppingList.listName.name)
    ensures forall i :: 0 <= i < |ShoppingList.items| ==> Plain(ShoppingList.items[i].description)
  {
    PlainByMembership("shopping");
    ShoppingItemsArePlain();
    ItemsOfPlainTexts(ShoppingList.items, ["carrots", "apples", "milk"]);
  }

  lemma ShoppingItemsArePlain()
    ensures Plain("carrots") && Plain("apples") && Plain("milk")
  {
    PlainByMembership("carrots");
    PlainByMembership("apples");
    PlainByMembership("milk");
  }

  lemma GardenTextsArePlain()
    ensures Plain(GardenList.listName.name)
    ensures forall i :: 0 <= i < |GardenList.items| ==> Plain(GardenList.items[i].description)
  {
    PlainByMembership("gardening");
    GardenItemsArePlain();
    ItemsOfPlainTexts(GardenList.items, ["fix the fence", "mowing the lawn"]);
  }

  lemma GardenItemsArePlain()
    ensures Plain("fix the fence") && Plain("mowing the lawn")
  {
    FenceIsPlain();
    LawnIsPlain();
  }

  lemma FenceIsPlain()
    ensures Plain("fix the fence")
  {
    PlainByMembership("fix the fence");
  }

  lemma LawnIsPlain()
    ensures Plain("mowing the lawn")
  {
    PlainByMembership("mowing the lawn");
  }

  lemma ItemsOfPlainTexts(items: seq<ToDoItem>, texts: seq<string>)
    requires |items| == |texts| && forall i :: 0 <= i < |items| ==> items[i] == ToDoItem(texts[i])
    requires forall i :: 0 <= i < |texts| ==> Plain(texts[i])
    ensures forall i :: 0 <= i < |items| ==> Plain(items[i].description)
  {
  }

  lemma ScenarioEntries()
    ensures Frank != Bob
    ensures ScenarioLists[Frank] == [ShoppingList] && ScenarioLists[Bob] == [GardenList]
    ensures ShoppingList.listName != GardenList.listName
  {
    assert |Frank.name| != |Bob.name|;
    assert |ShoppingList.listName.name| != |GardenList.listName.name|;
  }

  lemma ScenarioNamesAreSegmentSafe()
    ensures SegmentSafe(Frank.name) && SegmentSafe(ShoppingList.listName.name)
    ensures SegmentSafe(Bob.name) && SegmentSafe(GardenList.listName.name)
  {
    OwnerNamesAreSegmentSafe();
    ListNamesAreSegmentSafe();
  }

  lemma OwnerNamesAreSegmentSafe()
    ensures SegmentSafe("Frank") && SegmentSafe("Bob")
  {
  }

  lemma ListNamesAreSegmentSafe()
    ensures SegmentSafe("shopping") && SegmentSafe("gardening")
  {
  }

  /** List owners can see their lists: each gets back the list exactly as filed. */
  lemma ListOwnersCanSeeTheirLists()
    ensures GetToDoList(ScenarioLists, "Frank", "shopping") == Some(ShoppingList)
    ensures GetToDoList(ScenarioLists, "Bob", "gardening") == Some(GardenList)
  {
    ScenarioEntries();
    ShoppingTextsArePlain();
    GardenTextsArePlain();
    ScenarioNamesAreSegmentSafe();
    PlainNameSurvives(ShoppingList.listName.name);
    PlainNameSurvives(GardenList.listName.name);
    assert FetchListContent(ScenarioLists, (Frank, ShoppingList.listName)) == Success(ShoppingList);
    assert FetchListContent(ScenarioLists, (Bob, GardenList.listName)) == Success(GardenList);
    OwnerSeesList(ScenarioLists, Frank, ShoppingList);
    OwnerSeesList(ScenarioLists, Bob, GardenList);
  }

  /** Only owners can see their lists: neither user sees the other's list. */
  lemma OnlyOwnersCanSeeTheirLists()
    ensures GetToDoList(ScenarioLists, "Frank", "gardening") == None
    ensures GetToDoList(ScenarioLists, "Bob", "shopping") == None
  {
    ScenarioEntries();
    NonOwnerSeesNothing(ScenarioLists, "Frank", "gardening");
    NonOwnerSeesNothing(ScenarioLists, "Bob", "shopping");
  }
}
