/**
 * The Kotlin standard-library string functions that the renderer relies on,
 * as they behave on the JVM: `Char.isWhitespace`, `isBlank`, `lines()`,
 * `drop`, `joinToString` and `trimIndent()`.
 *
 * Strings are sequences of characters; `lines()` splits at "\r\n", "\n" and
 * "\r" (the first of these delimiters that matches at a position wins).
 */
module KotlinText {

  import opened Wrappers

  /** `Char.isWhitespace()` on the JVM: `Character.isWhitespace(c) || Character.isSpaceChar(c)`. */
  predicate IsWhitespace(c: char) {
    || c == ' ' || c == '\t' || c == '\n' || c == '\U{000B}' || c == '\U{000C}' || c == '\r'
    || ('\U{001C}' <= c <= '\U{001F}')
    || c == '\U{00A0}' || c == '\U{1680}' || ('\U{2000}' <= c <= '\U{200A}')
    || c == '\U{2028}' || c == '\U{2029}' || c == '\U{202F}' || c == '\U{205F}' || c == '\U{3000}'
  }

  /** `CharSequence.isBlank()`: every character is whitespace (so "" is blank). */
  predicate IsBlank(s: string) {
    forall i :: 0 <= i < |s| ==> IsWhitespace(s[i])
  }

  /** A string that `lines()` does not split. */
  predicate NoLineBreak(s: string) {
    '\n' !in s && '\r' !in s
  }

  /** `n` spaces. */
  function Indent(n: nat): (s: string)
    ensures |s| == n && IsBlank(s) && NoLineBreak(s)
  {
    seq(n, _ => ' ')
  }

  /**
   * The indentation width `trimIndent` measures: the index of the first
   * non-whitespace character, or the length of a blank line.
   */
  function IndentWidth(s: string): (w: nat)
    ensures w <= |s|
    ensures forall i :: 0 <= i < w ==> IsWhitespace(s[i])
    ensures w < |s| ==> !IsWhitespace(s[w])
  {
    if s == [] || !IsWhitespace(s[0]) then 0 else 1 + IndentWidth(s[1..])
  }

  /** `String.drop(n)`: all but the first `n` characters. */
  function Drop(s: string, n: nat): (r: string)
    ensures |r| == if n <= |s| then |s| - n else 0
    ensures forall i :: 0 <= i < |r| ==> r[i] == s[n + i]
  {
    if n <= |s| then s[n..] else ""
  }

  /** `CharSequence.lines()`: the pieces between line breaks, empty pieces included. */
  function Lines(s: string): (ls: seq<string>)
    ensures |ls| >= 1
    ensures forall i :: 0 <= i < |ls| ==> NoLineBreak(ls[i])
    decreases |s|
  {
    if s == [] then [""]
    else if s[0] == '\n' then [""] + Lines(s[1..])
    else if s[0] == '\r' then
      if |s| >= 2 && s[1] == '\n' then [""] + Lines(s[2..]) else [""] + Lines(s[1..])
    else
      var rest := Lines(s[1..]);
      [[s[0]] + rest[0]] + rest[1..]
  }

  /** `joinToString(separator)`: the pieces in order, `separator` between neighbours. */
  function JoinToString(ls: seq<string>, separator: string): string
    decreases |ls|
  {
    if |ls| == 0 then ""
    else if |ls| == 1 then ls[0]
    else ls[0] + separator + JoinToString(ls[1..], separator)
  }

  /** The indentation widths of the non-blank lines, least first; None when every line is blank. */
  function MinIndentOfNonBlank(ls: seq<string>): (m: Option<nat>)
    ensures m.None? <==> forall i :: 0 <= i < |ls| ==> IsBlank(ls[i])
    ensures m.Some? ==> exists i :: 0 <= i < |ls| && !IsBlank(ls[i]) && IndentWidth(ls[i]) == m.value
    ensures m.Some? ==> forall i :: 0 <= i < |ls| && !IsBlank(ls[i]) ==> m.value <= IndentWidth(ls[i])
    decreases |ls|
  {
    if ls == [] then None
    else
      var rest := MinIndentOfNonBlank(ls[1..]);
      if IsBlank(ls[0]) then rest
      else if rest.Some? && rest.value < IndentWidth(ls[0]) then rest
      else Some(IndentWidth(ls[0]))
  }

  /** `minOrNull() ?: 0` over the non-blank lines' indentation widths. */
  function MinCommonIndent(ls: seq<string>): nat {
    match MinIndentOfNonBlank(ls)
    case Some(m) => m
    case None => 0
  }

  /**
   * `reindent` as `trimIndent` uses it (`mapIndexedNotNull`): the first and the
   * last line are removed when blank, and every other line loses its first
   * `m` characters.
   */
  function Reindent(ls: seq<string>, m: nat): seq<string> {
    if ls == [] then []
    else
      var cut := seq(|ls|, i requires 0 <= i < |ls| => Drop(ls[i], m));
      var lo := if IsBlank(ls[0]) then 1 else 0;
      var hi := if IsBlank(ls[|ls| - 1]) then |ls| - 1 else |ls|;
      if lo <= hi then cut[lo..hi] else []
  }

  /** The columns `trimIndent` cuts: the least indentation of the non-blank lines of `s`. */
  function TrimWidth(s: string): nat {
    MinCommonIndent(Lines(s))
  }

  /** The lines `trimIndent` re-joins: `lines()` of `s`, reindented by `TrimWidth(s)`. */
  function TrimmedLines(s: string): seq<string> {
    Reindent(Lines(s), TrimWidth(s))
  }

  /** `String.trimIndent()`, i.e. `replaceIndent("")`, re-joined with "\n". */
  function TrimIndent(s: string): string {
    JoinToString(TrimmedLines(s), "\n")
  }

  /**
   * An independent description of what splitting at line breaks and
   * re-joining with "\n" does: every "\r\n" and every lone "\r" becomes "\n".
   */
  function NormalizeBreaks(s: string): (r: string)
    ensures '\r' !in r
    decreases |s|
  {
    if s == [] then ""
    else if s[0] == '\r' then
      "\n" + NormalizeBreaks(if |s| >= 2 && s[1] == '\n' then s[2..] else s[1..])
    else [s[0]] + NormalizeBreaks(s[1..])
  }

  // ---------------------------------------------------------------------------
  // Lines

  lemma {:induction false} LinesOfUnbroken(a: string)
    requires NoLineBreak(a)
    ensures Lines(a) == [a]
    decreases |a|
  {
    if a != [] {
      assert a[0] in a;
      assert NoLineBreak(a[1..]) by {
        forall c | c in a[1..] ensures c in a { }
      }
      LinesOfUnbroken(a[1..]);
      assert [a[0]] + a[1..] == a;
    }
  }

  /** An unbroken first line followed by "\n" is split off as the first piece. */
  lemma {:induction false} LinesAfterLine(a: string, b: string)
    requires NoLineBreak(a)
    ensures Lines(a + "\n" + b) == [a] + Lines(b)
    decreases |a|
  {
    if a == [] {
      assert a + "\n" + b == "\n" + b;
      assert ("\n" + b)[1..] == b;
    } else {
      var s := a + "\n" + b;
      assert a[0] in a;
      assert s[0] == a[0];
      assert NoLineBreak(a[1..]) by {
        forall c | c in a[1..] ensures c in a { }
      }
      assert s[1..] == a[1..] + "\n" + b;
      LinesAfterLine(a[1..], b);
      assert [a[0]] + a[1..] == a;
    }
  }

  /** Joining unbroken lines with "\n" and splitting again gives the lines back. */
  lemma {:induction false} LinesOfJoin(ls: seq<string>)
    requires |ls| >= 1
    requires forall i :: 0 <= i < |ls| ==> NoLineBreak(ls[i])
    ensures Lines(JoinToString(ls, "\n")) == ls
    decreases |ls|
  {
    if |ls| == 1 {
      LinesOfUnbroken(ls[0]);
    } else {
      LinesOfJoin(ls[1..]);
      LinesAfterLine(ls[0], JoinToString(ls[1..], "\n"));
      assert [ls[0]] + ls[1..] == ls;
    }
  }

  /** `ls` with `b` appended to its last piece. */
  function ExtendLast(ls: seq<string>, b: string): (r: seq<string>)
    requires |ls| >= 1
    ensures |r| == |ls| && r[..|r| - 1] == ls[..|ls| - 1] && r[|r| - 1] == ls[|ls| - 1] + b
  {
    ls[..|ls| - 1] + [ls[|ls| - 1] + b]
  }

  /** Appending unbroken text extends the last piece only. */
  lemma {:induction false} LinesAppendUnbroken(a: string, b: string)
    requires NoLineBreak(b)
    ensures Lines(a + b) == ExtendLast(Lines(a), b)
    decreases |a|
  {
    if a == [] {
      assert a + b == b;
      LinesOfUnbroken(b);
    } else if a[0] == '\n' || a[0] == '\r' {
      var k := if a[0] == '\r' && |a| >= 2 && a[1] == '\n' then 2 else 1;
      LinesAppendUnbroken(a[k..], b);
      LinesAppendAfterBreak(a, b, k);
    } else {
      LinesAppendUnbroken(a[1..], b);
      LinesAppendAfterChar(a, b);
    }
  }

  lemma LinesAppendAfterBreak(a: string, b: string, k: nat)
    requires NoLineBreak(b)
    requires a != [] && (a[0] == '\n' || a[0] == '\r')
    requires k == if a[0] == '\r' && |a| >= 2 && a[1] == '\n' then 2 else 1
    requires k <= |a| && Lines(a[k..] + b) == ExtendLast(Lines(a[k..]), b)
    ensures Lines(a + b) == ExtendLast(Lines(a), b)
  {
    LinesAfterBreak(a, b, k);
    ExtendLastCons("", Lines(a[k..]), b);
  }

  /** Extending the last piece leaves a new first piece alone. */
  lemma ExtendLastCons(x: string, lt: seq<string>, b: string)
    requires |lt| >= 1
    ensures ExtendLast([x] + lt, b) == [x] + ExtendLast(lt, b)
  {
    assert ([x] + lt)[..|lt|] == [x] + lt[..|lt| - 1];
  }

  lemma LinesAppendAfterChar(a: string, b: string)
    requires a != [] && a[0] != '\n' && a[0] != '\r'
    requires Lines(a[1..] + b) == ExtendLast(Lines(a[1..]), b)
    ensures Lines(a + b) == ExtendLast(Lines(a), b)
  {
    assert (a + b)[0] == a[0] && (a + b)[1..] == a[1..] + b;
    ExtendFirstAndLast(a[0], Lines(a[1..]), b);
  }

  /** A leading line break of length `k` gives an empty first piece, with or without `b` appended. */
  lemma LinesAfterBreak(a: string, b: string, k: nat)
    requires NoLineBreak(b)
    requires a != [] && (a[0] == '\n' || a[0] == '\r')
    requires k == if a[0] == '\r' && |a| >= 2 && a[1] == '\n' then 2 else 1
    ensures k <= |a|
    ensures Lines(a) == [""] + Lines(a[k..])
    ensures Lines(a + b) == [""] + Lines(a[k..] + b)
  {
    var s := a + b;
    assert s[0] == a[0] && s[k..] == a[k..] + b;
    if |a| == 1 && |b| >= 1 {
      assert b[0] in b;
      assert s[1] == b[0];
    }
    if |a| >= 2 {
      assert s[1] == a[1];
    }
  }

  /** Prepending to the first piece commutes with appending to the last piece. */
  lemma ExtendFirstAndLast(c: char, lt: seq<string>, b: string)
    requires |lt| >= 1
    ensures var r := lt[..|lt| - 1] + [lt[|lt| - 1] + b];
      var la := [[c] + lt[0]] + lt[1..];
      [[c] + r[0]] + r[1..] == la[..|la| - 1] + [la[|la| - 1] + b]
  {
    var r := lt[..|lt| - 1] + [lt[|lt| - 1] + b];
    var la := [[c] + lt[0]] + lt[1..];
    if |lt| == 1 {
      assert [c] + (lt[0] + b) == ([c] + lt[0]) + b;
    } else {
      assert r[0] == lt[0];
      assert r[1..] == lt[1..|lt| - 1] + [lt[|lt| - 1] + b];
      assert la[..|la| - 1] == [[c] + lt[0]] + lt[1..|lt| - 1];
    }
  }

  /** Splitting at line breaks and re-joining with "\n" normalizes the breaks. */
  lemma {:induction false} JoinOfLines(s: string)
    ensures JoinToString(Lines(s), "\n") == NormalizeBreaks(s)
    decreases |s|
  {
    if s == [] {
    } else if s[0] == '\n' {
      JoinOfLines(s[1..]);
      JoinAfterEmpty(Lines(s[1..]));
    } else if s[0] == '\r' {
      var t := if |s| >= 2 && s[1] == '\n' then s[2..] else s[1..];
      JoinOfLines(t);
      JoinAfterEmpty(Lines(t));
    } else {
      var rest := Lines(s[1..]);
      JoinOfLines(s[1..]);
      JoinExtendFirst(s[0], rest, "\n");
    }
  }

  lemma JoinAfterEmpty(ls: seq<string>)
    requires |ls| >= 1
    ensures JoinToString([""] + ls, "\n") == "\n" + JoinToString(ls, "\n")
  {
    assert ([""] + ls)[1..] == ls;
  }

  lemma JoinExtendFirst(c: char, ls: seq<string>, separator: string)
    requires |ls| >= 1
    ensures JoinToString([[c] + ls[0]] + ls[1..], separator) == [c] + JoinToString(ls, separator)
  {
    var x, rest := ls[0], ls[1..];
    if rest == [] {
      assert [[c] + x] + rest == [[c] + x];
    } else {
      assert ls == [x] + rest;
      JoinExtendFirstOfCons(c, x, rest, separator);
    }
  }

  lemma JoinExtendFirstOfCons(c: char, x: string, rest: seq<string>, separator: string)
    requires |rest| >= 1
    ensures JoinToString([[c] + x] + rest, separator) == [c] + JoinToString([x] + rest, separator)
  {
    JoinCons([c] + x, rest, separator);
    JoinCons(x, rest, separator);
    ConsAssoc3(c, x, separator, JoinToString(rest, separator));
  }

  /** Concatenation after a one-element prefix regroups freely. */
  lemma ConsAssoc<T>(c: T, x: seq<T>, y: seq<T>)
    ensures [c] + x + y == [c] + (x + y)
  {
  }

  /** `ConsAssoc` for three pieces after the prefix. */
  lemma ConsAssoc3<T>(c: T, x: seq<T>, y: seq<T>, z: seq<T>)
    ensures [c] + x + y + z == [c] + (x + y + z)
  {
  }

  /** Concatenation is associative. */
  lemma Assoc<T>(x: seq<T>, y: seq<T>, z: seq<T>)
    ensures x + y + z == x + (y + z)
  {
  }

  lemma {:induction false} NormalizeUnbroken(s: string)
    requires NoLineBreak(s)
    ensures NormalizeBreaks(s) == s
    decreases |s|
  {
    if s != [] {
      assert s[0] in s;
      assert NoLineBreak(s[1..]) by {
        forall c | c in s[1..] ensures c in s { }
      }
      NormalizeUnbroken(s[1..]);
      assert [s[0]] + s[1..] == s;
    }
  }

  /** Normalizing distributes over a join that does not fall inside a "\r\n". */
  lemma {:induction false} NormalizeAppend(a: string, b: string)
    requires !(|a| >= 1 && a[|a| - 1] == '\r' && |b| >= 1 && b[0] == '\n')
    ensures NormalizeBreaks(a + b) == NormalizeBreaks(a) + NormalizeBreaks(b)
    decreases |a|
  {
    if a == [] {
      assert a + b == b;
    } else if a[0] != '\r' {
      NormalizeAppend(a[1..], b);
      NormalizeAppendChar(a, b);
    } else if |a| == 1 {
      NormalizeAppendLoneReturn(a, b);
    } else if a[1] == '\n' {
      NormalizeAppend(a[2..], b);
      NormalizeAppendReturnNewline(a, b);
    } else {
      NormalizeAppend(a[1..], b);
      NormalizeAppendReturn(a, b);
    }
  }

  lemma NormalizeAppendChar(a: string, b: string)
    requires a != [] && a[0] != '\r'
    requires NormalizeBreaks(a[1..] + b) == NormalizeBreaks(a[1..]) + NormalizeBreaks(b)
    ensures NormalizeBreaks(a + b) == NormalizeBreaks(a) + NormalizeBreaks(b)
  {
    var s := a + b;
    assert s[0] == a[0] && s[1..] == a[1..] + b;
    NormalizeOfPlainHead(s);
    NormalizeOfPlainHead(a);
    ConsAssoc(a[0], NormalizeBreaks(a[1..]), NormalizeBreaks(b));
  }

  lemma NormalizeOfPlainHead(s: string)
    requires s != [] && s[0] != '\r'
    ensures NormalizeBreaks(s) == [s[0]] + NormalizeBreaks(s[1..])
  {
  }

  lemma NormalizeAppendLoneReturn(a: string, b: string)
    requires a == "\r" && !(|b| >= 1 && b[0] == '\n')
    ensures NormalizeBreaks(a + b) == NormalizeBreaks(a) + NormalizeBreaks(b)
  {
    var s := a + b;
    assert s[0] == '\r' && s[1..] == b;
    assert !(|s| >= 2 && s[1] == '\n');
    assert NormalizeBreaks(a) == "\n";
  }

  lemma NormalizeAppendReturnNewline(a: string, b: string)
    requires |a| >= 2 && a[0] == '\r' && a[1] == '\n'
    requires NormalizeBreaks(a[2..] + b) == NormalizeBreaks(a[2..]) + NormalizeBreaks(b)
    ensures NormalizeBreaks(a + b) == NormalizeBreaks(a) + NormalizeBreaks(b)
  {
    var s := a + b;
    assert s[0] == '\r' && s[1] == '\n' && s[2..] == a[2..] + b;
    ConsAssoc('\n', NormalizeBreaks(a[2..]), NormalizeBreaks(b));
  }

  lemma NormalizeAppendReturn(a: string, b: string)
    requires |a| >= 2 && a[0] == '\r' && a[1] != '\n'
    requires NormalizeBreaks(a[1..] + b) == NormalizeBreaks(a[1..]) + NormalizeBreaks(b)
    ensures NormalizeBreaks(a + b) == NormalizeBreaks(a) + NormalizeBreaks(b)
  {
    var s := a + b;
    assert s[0] == '\r' && s[1] == a[1] && s[1..] == a[1..] + b;
    ConsAssoc('\n', NormalizeBreaks(a[1..]), NormalizeBreaks(b));
  }

  /** Text between two unbroken pieces is normalized on its own. */
  lemma NormalizeBetween(a: string, d: string, c: string)
    requires NoLineBreak(a) && NoLineBreak(c)
    ensures NormalizeBreaks(a + d + c) == a + NormalizeBreaks(d) + c
  {
    NormalizeBeforeUnbroken(d, c);
    NormalizeAfterUnbroken(a, d + c);
    Assoc(a, d, c);
    Assoc(a, NormalizeBreaks(d), c);
  }

  lemma NormalizeBeforeUnbroken(d: string, c: string)
    requires NoLineBreak(c)
    ensures NormalizeBreaks(d + c) == NormalizeBreaks(d) + c
  {
    if |c| >= 1 {
      assert c[0] in c;
    }
    NormalizeAppend(d, c);
    NormalizeUnbroken(c);
  }

  lemma NormalizeAfterUnbroken(a: string, e: string)
    requires NoLineBreak(a)
    ensures NormalizeBreaks(a + e) == a + NormalizeBreaks(e)
  {
    if |a| >= 1 {
      assert a[|a| - 1] in a;
    }
    NormalizeAppend(a, e);
    NormalizeUnbroken(a);
  }

  // ---------------------------------------------------------------------------
  // Joining

  /** Joining with the empty separator distributes over concatenation. */
  lemma {:induction false} JoinEmptyAppend(xs: seq<string>, ys: seq<string>)
    ensures JoinToString(xs + ys, "") == JoinToString(xs, "") + JoinToString(ys, "")
    decreases |xs|
  {
    if xs == [] {
      assert xs + ys == ys;
    } else if |xs| == 1 {
      if ys != [] {
        assert (xs + ys)[1..] == ys;
      }
    } else {
      assert (xs + ys)[1..] == xs[1..] + ys;
      JoinEmptyAppend(xs[1..], ys);
    }
  }

  lemma JoinCons(a: string, rest: seq<string>, separator: string)
    requires |rest| >= 1
    ensures JoinToString([a] + rest, separator) == a + separator + JoinToString(rest, separator)
  {
    assert ([a] + rest)[1..] == rest;
  }

  // ---------------------------------------------------------------------------
  // trimIndent

  lemma IndentedWidth(n: nat, r: string)
    requires r != [] && !IsWhitespace(r[0])
    ensures IndentWidth(Indent(n) + r) == n && !IsBlank(Indent(n) + r)
    ensures NoLineBreak(r) ==> NoLineBreak(Indent(n) + r)
  {
    var s := Indent(n) + r;
    assert s[n] == r[0];
  }

  lemma DropIndent(n: nat, m: nat, r: string)
    requires m <= n
    ensures Drop(Indent(n) + r, m) == Indent(n - m) + r
  {
  }

  /**
   * A line that starts with a non-whitespace character and does not end
   * in a blank line is only re-broken by `trimIndent`: its common indent is 0
   * and no line is removed.
   */
  lemma TrimIndentUnindented(s: string)
    requires s != [] && !IsWhitespace(s[0])
    requires var ls := Lines(s); !IsBlank(ls[|ls| - 1])
    ensures TrimIndent(s) == NormalizeBreaks(s)
  {
    var ls := Lines(s);
    assert s[0] != '\n' && s[0] != '\r';
    assert ls[0][0] == s[0];
    assert !IsBlank(ls[0]) && IndentWidth(ls[0]) == 0;
    assert MinCommonIndent(ls) == 0;
    var cut := seq(|ls|, i requires 0 <= i < |ls| => Drop(ls[i], 0));
    assert cut == ls;
    assert Reindent(ls, 0) == ls;
    JoinOfLines(s);
  }

  /**
   * `trimIndent` of a block whose first and last lines are blank and whose
   * other lines all share the least indentation `m`: the blank ends are
   * removed and `m` characters are cut from every other line.
   */
  lemma TrimIndentBlock(ls: seq<string>, m: nat, k: nat)
    requires |ls| >= 3
    requires forall i :: 0 <= i < |ls| ==> NoLineBreak(ls[i])
    requires IsBlank(ls[0]) && IsBlank(ls[|ls| - 1])
    requires 0 < k < |ls| - 1 && !IsBlank(ls[k]) && IndentWidth(ls[k]) == m
    requires forall i :: 0 < i < |ls| - 1 && !IsBlank(ls[i]) ==> m <= IndentWidth(ls[i])
    ensures TrimIndent(JoinToString(ls, "\n"))
         == JoinToString(seq(|ls| - 2, i requires 0 <= i < |ls| - 2 => Drop(ls[i + 1], m)), "\n")
  {
    LinesOfJoin(ls);
    CommonIndentOfBlock(ls, m, k);
    ReindentBlock(ls, m);
  }

  lemma CommonIndentOfBlock(ls: seq<string>, m: nat, k: nat)
    requires 0 <= k < |ls| && !IsBlank(ls[k]) && IndentWidth(ls[k]) == m
    requires forall i :: 0 <= i < |ls| && !IsBlank(ls[i]) ==> m <= IndentWidth(ls[i])
    ensures MinCommonIndent(ls) == m
  {
    var mi := MinIndentOfNonBlank(ls);
    assert mi.Some?;
  }

  lemma ReindentBlock(ls: seq<string>, m: nat)
    requires |ls| >= 3 && IsBlank(ls[0]) && IsBlank(ls[|ls| - 1])
    ensures Reindent(ls, m) == seq(|ls| - 2, i requires 0 <= i < |ls| - 2 => Drop(ls[i + 1], m))
  {
    var cut := seq(|ls|, i requires 0 <= i < |ls| => Drop(ls[i], m));
    assert Reindent(ls, m) == cut[1..|ls| - 1];
  }

  /**
   * Unbroken leading lines are split off unchanged, whatever follows them:
   * the first `k` pieces of `lines()` of the join are those lines.
   */
  lemma {:induction false} LinesOfJoinPrefix(ls: seq<string>, k: nat)
    requires 1 <= k < |ls|
    requires forall i :: 0 <= i < k ==> NoLineBreak(ls[i])
    ensures Lines(JoinToString(ls, "\n")) == ls[..k] + Lines(JoinToString(ls[k..], "\n"))
    decreases k
  {
    LinesAfterLine(ls[0], JoinToString(ls[1..], "\n"));
    if k > 1 {
      LinesOfJoinPrefix(ls[1..], k - 1);
      assert ls[1..][k - 1..] == ls[k..];
      assert [ls[0]] + ls[1..][..k - 1] == ls[..k];
    } else {
      assert [ls[0]] == ls[..1];
    }
  }

  /**
   * After a blank first line, `reindent` keeps the next `k` lines, each
   * less its first `m` characters, as the first `k` lines of its result.
   */
  lemma ReindentAfterBlank(ls: seq<string>, m: nat, k: nat)
    requires |ls| >= k + 2 && IsBlank(ls[0])
    ensures |Reindent(ls, m)| >= k
    ensures forall i :: 0 <= i < k ==> Reindent(ls, m)[i] == Drop(ls[i + 1], m)
  {
    var cut := seq(|ls|, i requires 0 <= i < |ls| => Drop(ls[i], m));
    var hi := if IsBlank(ls[|ls| - 1]) then |ls| - 1 else |ls|;
    assert Reindent(ls, m) == cut[1..hi];
  }

  /**
   * `trimIndent` of a text whose first line is blank and whose next `k`
   * lines are unbroken, the first of them non-blank with indentation `w`:
   * whatever follows, the result opens with those `k` lines, each less the
   * same `TrimWidth <= w` columns.
   */
  lemma TrimIndentOpening(tl: seq<string>, k: nat, w: nat)
    requires 1 <= k && k + 1 < |tl|
    requires forall i :: 0 <= i <= k ==> NoLineBreak(tl[i])
    requires IsBlank(tl[0]) && !IsBlank(tl[1]) && IndentWidth(tl[1]) == w
    ensures var t := JoinToString(tl, "\n");
      && TrimWidth(t) <= w && |TrimmedLines(t)| >= k
      && forall i :: 0 <= i < k ==> TrimmedLines(t)[i] == Drop(tl[i + 1], TrimWidth(t))
  {
    LinesOfJoinPrefix(tl, k + 1);
    var ls := Lines(JoinToString(tl, "\n"));
    assert ls[..k + 1] == tl[..k + 1];
    assert ls[0] == tl[0] && ls[1] == tl[1];
    assert MinIndentOfNonBlank(ls).Some?;
    var m := MinCommonIndent(ls);
    ReindentAfterBlank(ls, m, k);
    forall i | 0 <= i < k ensures Reindent(ls, m)[i] == Drop(tl[i + 1], m) {
      assert ls[i + 1] == tl[i + 1];
    }
  }
}
