/** `parseMarkdownBasic` works line by line. Because `.` never matches a line
    terminator, each of the five global replacements is the same as cutting
    the text into lines, rewriting every line on its own and gluing the lines
    back with their original terminators. Within a line the rewriting is
    stated here by first and last occurrences rather than by scanning:
    a heading or bold pattern rewrites at most one stretch of a line, and
    backticks pair up left to right. */
module MarkdownLines {
  import opened Wrappers
  import opened Lines
  import opened Markdown

  // ---------------------------------------------------------------------------
  // Reference definition

  /** The first index at or after `from` where `lit` occurs in `t`. */
  function FirstAt(t: string, lit: string, from: nat): (r: Option<nat>)
    requires lit != []
    ensures r.Some? ==> from <= r.value && StartsAt(t, r.value, lit)
    ensures r.Some? ==> forall j :: from <= j < r.value ==> !StartsAt(t, j, lit)
    ensures r.None? ==> forall j :: from <= j ==> !StartsAt(t, j, lit)
    decreases |t| - from
  {
    if from >= |t| then None
    else if StartsAt(t, from, lit) then Some(from)
    else FirstAt(t, lit, from + 1)
  }

  /** The last index below `before` where `lit` occurs in `t`. */
  function LastAt(t: string, lit: string, before: nat): (r: Option<nat>)
    ensures r.Some? ==> r.value < before && StartsAt(t, r.value, lit)
    ensures r.Some? ==> forall j :: r.value < j < before ==> !StartsAt(t, j, lit)
    ensures r.None? ==> forall j :: 0 <= j < before ==> !StartsAt(t, j, lit)
    decreases before
  {
    if before == 0 then None
    else if StartsAt(t, before - 1, lit) then Some(before - 1)
    else LastAt(t, lit, before - 1)
  }

  /** Backtick pairs of a line, from `from` on, left to right: each backtick
      that has a later one on the line opens a code span that the next one
      closes; an unpaired last backtick stays as it is. */
  function CodeSpans(t: string, from: nat): string
    requires from <= |t|
    decreases |t| - from
  {
    match FirstAt(t, "`", from)
    case None => t[from..]
    case Some(i) =>
      match FirstAt(t, "`", i + 1)
      case None => t[from..]
      case Some(k) => t[from..i] + "<code>" + t[i + 1..k] + "</code>" + CodeSpans(t, k + 1)
  }

  /** A heading pattern on one line: from the first marker on, the rest of the
      line is wrapped in `open` and `close`; without a marker the line stays. */
  function HeadRewrite(t: string, lit: string, open: string, close: string): string
    requires lit != []
  {
    match FirstAt(t, lit, 0)
    case None => t
    case Some(i) => t[..i] + open + t[i + |lit|..] + close
  }

  /** What pass `p` makes of one line `t`. */
  function LineRewrite(p: Pass, t: string): string {
    match p
    case Heading3 => HeadRewrite(t, "### ", H3Open, "</h3>")
    case Heading2 => HeadRewrite(t, "## ", H2Open, "</h2>")
    case Bold =>
      (match FirstAt(t, "**", 0)
       case None => t
       case Some(i) =>
         match LastAt(t, "**", |t|)
         case None => t
         case Some(k) =>
           if i + 2 <= k then t[..i] + "<strong>" + t[i + 2..k] + "</strong>" + t[k + 2..] else t)
    case ListItem =>
      if StartsAt(t, 0, "- ") then Bullet + t[2..] else t
    case InlineCode =>
      CodeSpans(t, 0)
  }

  /** Pass `p` as a rewriting of single lines. */
  function LineRewriter(p: Pass): string -> string {
    t => LineRewrite(p, t)
  }

  /** The line rewriting `f` applied to every line of `s` from the line
      starting at `a`, line terminators kept in place. */
  function ByLines(f: string -> string, s: string, a: nat): string
    requires a <= |s|
    decreases |s| - a
  {
    var e := LineEnd(s, a);
    f(s[a..e]) + (if e == |s| then [] else [s[e]] + ByLines(f, s, e + 1))
  }

  /** The passes `ps`, each applied line by line. */
  function RewriteByLines(ps: seq<Pass>, s: string): string {
    if ps == [] then s else RewriteByLines(ps[1..], ByLines(LineRewriter(ps[0]), s, 0))
  }

  // ---------------------------------------------------------------------------
  // Matching never looks past the end of a line

  /** `[a, e)` is one whole line of `s`. */
  predicate LineSpan(s: string, a: nat, e: nat) {
    a <= e <= |s| && AtLineStart(s, a) && e == LineEnd(s, a)
  }

  function ShiftIndex(o: Option<nat>, a: nat): Option<nat> {
    if o.None? then None else Some(o.value + a)
  }

  function ShiftMatch(o: Option<Match>, a: nat): Option<Match> {
    if o.None? then None else Some(Match(o.value.end + a, o.value.group))
  }

  /** A literal without line terminators that occurs at `j` ends by the end of `j`'s line. */
  lemma StartsAtWithinLine(s: string, j: nat, e: nat, lit: string)
    requires j <= e <= |s| && (e == |s| || IsLineTerminator(s[e])) && NoTerminator(lit)
    ensures StartsAt(s, j, lit) ==> j + |lit| <= e
  {
    if e < j + |lit| <= |s| {
      assert s[j..j + |lit|][e - j] == s[e];
    }
  }

  lemma StartsAtSlice(s: string, a: nat, e: nat, j: nat, lit: string)
    requires a <= j <= e <= |s| && (e == |s| || IsLineTerminator(s[e])) && NoTerminator(lit)
    ensures StartsAt(s, j, lit) <==> StartsAt(s[a..e], j - a, lit)
  {
    StartsAtWithinLine(s, j, e, lit);
    var t := s[a..e];
    if j + |lit| <= e {
      SliceOfSlice(s, a, e, j - a, j - a + |lit|);
    } else {
      assert !StartsAt(t, j - a, lit);
    }
  }

  lemma LineEndLocal(s: string, a: nat, e: nat, x: nat)
    requires LineSpan(s, a, e) && a <= x <= e
    ensures LineEnd(s, x) == e
    ensures LineEnd(s[a..e], x - a) == e - a
  {
    assert NoTerminator(s[x..e]) by {
      assert forall k :: x <= k < e ==> s[k] == s[a..e][k - a];
    }
    LineEndWithinLine(s, x, e);
    SingleLineEnd(s[a..e], x - a);
  }

  lemma StartsAtInside(s: string, a: nat, e: nat, j: nat, lit: string)
    requires a <= j && j + |lit| <= e <= |s|
    ensures StartsAt(s, j, lit) <==> StartsAt(s[a..e], j - a, lit)
  {
    SliceOfSlice(s, a, e, j - a, j - a + |lit|);
  }

  lemma {:induction false} LastPairLocal(s: string, a: nat, e: nat, lo: nat, hi: nat)
    requires a <= lo <= hi <= e <= |s|
    ensures LastPair(s, lo, hi) == ShiftIndex(LastPair(s[a..e], lo - a, hi - a), a)
    decreases hi
  {
    if hi >= lo + 2 {
      if StartsAt(s, hi - 2, "**") {
        LastPairLocalHere(s, a, e, lo, hi);
      } else {
        LastPairLocal(s, a, e, lo, hi - 1);
        LastPairLocalBelow(s, a, e, lo, hi);
      }
    }
  }

  /** The greedy search stops at a `**` just before `hi`, in the text and in its slice alike. */
  lemma LastPairLocalHere(s: string, a: nat, e: nat, lo: nat, hi: nat)
    requires a <= lo && lo + 2 <= hi <= e <= |s| && StartsAt(s, hi - 2, "**")
    ensures LastPair(s, lo, hi) == ShiftIndex(LastPair(s[a..e], lo - a, hi - a), a)
  {
    StartsAtInside(s, a, e, hi - 2, "**");
    assert LastPair(s[a..e], lo - a, hi - a) == Some(hi - 2 - a);
  }

  /** Otherwise it moves one place down, in the text and in its slice alike. */
  lemma LastPairLocalBelow(s: string, a: nat, e: nat, lo: nat, hi: nat)
    requires a <= lo && lo + 2 <= hi <= e <= |s| && !StartsAt(s, hi - 2, "**")
    requires LastPair(s, lo, hi - 1) == ShiftIndex(LastPair(s[a..e], lo - a, hi - 1 - a), a)
    ensures LastPair(s, lo, hi) == ShiftIndex(LastPair(s[a..e], lo - a, hi - a), a)
  {
    StartsAtInside(s, a, e, hi - 2, "**");
    assert LastPair(s, lo, hi) == LastPair(s, lo, hi - 1);
    assert LastPair(s[a..e], lo - a, hi - a) == LastPair(s[a..e], lo - a, hi - 1 - a);
  }

  lemma {:induction false} FirstBacktickLocal(s: string, a: nat, e: nat, lo: nat, hi: nat)
    requires a <= lo <= hi <= e <= |s|
    ensures FirstBacktick(s, lo, hi) == ShiftIndex(FirstBacktick(s[a..e], lo - a, hi - a), a)
    decreases hi - lo
  {
    if lo < hi {
      assert s[lo] == s[a..e][lo - a];
      FirstBacktickLocal(s, a, e, lo + 1, hi);
    }
  }

  lemma AtLineStartLocal(s: string, a: nat, e: nat, j: nat)
    requires LineSpan(s, a, e) && a <= j <= e
    ensures AtLineStart(s, j) <==> AtLineStart(s[a..e], j - a)
  {
    if a < j {
      assert s[j - 1] == s[a..e][j - a - 1];
    }
  }

  lemma BoldAtFound(s: string, i: nat, k: nat)
    requires i <= |s| && StartsAt(s, i, "**") && LastPair(s, i + 2, LineEnd(s, i + 2)) == Some(k)
    ensures BoldAt(s, i) == Some(Match(k + 2, s[i + 2..k]))
  {
  }

  lemma CodeAtFound(s: string, i: nat, k: nat)
    requires i <= |s| && StartsAt(s, i, "`") && FirstBacktick(s, i + 1, LineEnd(s, i + 1)) == Some(k)
    ensures CodeAt(s, i) == Some(Match(k + 1, s[i + 1..k]))
  {
  }

  /** The bold match at `i`, given the end `e` of `i`'s line. */
  function BoldIn(s: string, i: nat, e: nat): Option<Match>
    requires i <= e <= |s|
  {
    if StartsAt(s, i, "**") && i + 2 <= e then
      match LastPair(s, i + 2, e)
      case Some(k) => Some(Match(k + 2, s[i + 2..k]))
      case None => None
    else
      None
  }

  lemma BoldInFound(s: string, i: nat, e: nat, k: nat)
    requires i + 2 <= e <= |s| && StartsAt(s, i, "**") && LastPair(s, i + 2, e) == Some(k)
    ensures BoldIn(s, i, e) == Some(Match(k + 2, s[i + 2..k]))
  {
  }

  /** The code match at `i`, given the end `e` of `i`'s line. */
  function CodeIn(s: string, i: nat, e: nat): Option<Match>
    requires i <= e <= |s|
  {
    if StartsAt(s, i, "`") && i + 1 <= e then
      match FirstBacktick(s, i + 1, e)
      case Some(k) => Some(Match(k + 1, s[i + 1..k]))
      case None => None
    else
      None
  }

  lemma BoldAtIn(s: string, i: nat)
    requires i <= |s|
    ensures BoldAt(s, i) == BoldIn(s, i, LineEnd(s, i))
  {
    if StartsAt(s, i, "**") {
      LeadHasNoTerminator(s, i, "**");
      match LastPair(s, i + 2, LineEnd(s, i))
      case Some(k) => BoldAtFound(s, i, k);
      case None =>
    }
  }

  lemma CodeAtIn(s: string, i: nat)
    requires i <= |s|
    ensures CodeAt(s, i) == CodeIn(s, i, LineEnd(s, i))
  {
    if StartsAt(s, i, "`") {
      LeadHasNoTerminator(s, i, "`");
      match FirstBacktick(s, i + 1, LineEnd(s, i))
      case Some(k) => CodeAtFound(s, i, k);
      case None =>
    }
  }

  lemma BoldInLocal(s: string, a: nat, e: nat, j: nat)
    requires a <= j <= e <= |s| && (e == |s| || IsLineTerminator(s[e]))
    ensures BoldIn(s, j, e) == ShiftMatch(BoldIn(s[a..e], j - a, e - a), a)
  {
    StartsAtSlice(s, a, e, j, "**");
    var t := s[a..e];
    if StartsAt(s, j, "**") && j + 2 <= e {
      LastPairLocal(s, a, e, j + 2, e);
      match LastPair(s, j + 2, e)
      case Some(k) =>
        assert LastPair(t, j - a + 2, e - a) == Some(k - a);
        BoldInLocalFound(s, a, e, j, k);
      case None =>
        assert LastPair(t, j - a + 2, e - a).None?;
    }
  }

  lemma BoldInLocalFound(s: string, a: nat, e: nat, j: nat, k: nat)
    requires a <= j && j + 2 <= e <= |s| && StartsAt(s, j, "**") && StartsAt(s[a..e], j - a, "**")
    requires LastPair(s, j + 2, e) == Some(k) && LastPair(s[a..e], j - a + 2, e - a) == Some(k - a)
    ensures BoldIn(s, j, e) == ShiftMatch(BoldIn(s[a..e], j - a, e - a), a)
  {
    BoldInFound(s, j, e, k);
    BoldInFound(s[a..e], j - a, e - a, k - a);
    GroupShift(s, a, e, j, k, 2);
  }

  /** A found match and its copy at an offset of `a`. */
  lemma ShiftFound(x: Option<Match>, y: Option<Match>, a: nat, end: nat, innerEnd: nat, g: string, h: string)
    requires x == Some(Match(end, g)) && y == Some(Match(innerEnd, h)) && end == innerEnd + a && g == h
    ensures x == ShiftMatch(y, a)
  {
  }

  /** The text between an opening delimiter of length `lead` at `j` and index `k`, read inside the stretch from `a` to `e`. */
  lemma GroupShift(s: string, a: nat, e: nat, j: nat, k: nat, lead: nat)
    requires a <= j && j + lead <= k <= e <= |s|
    ensures s[a..e][j - a + lead..k - a] == s[j + lead..k]
  {
    SliceOfSlice(s, a, e, j - a + lead, k - a);
  }

  lemma CodeInLocal(s: string, a: nat, e: nat, j: nat)
    requires a <= j <= e <= |s| && (e == |s| || IsLineTerminator(s[e]))
    ensures CodeIn(s, j, e) == ShiftMatch(CodeIn(s[a..e], j - a, e - a), a)
  {
    StartsAtSlice(s, a, e, j, "`");
    var t := s[a..e];
    if StartsAt(s, j, "`") && j + 1 <= e {
      FirstBacktickLocal(s, a, e, j + 1, e);
      match FirstBacktick(s, j + 1, e)
      case Some(k) =>
        assert FirstBacktick(t, j - a + 1, e - a) == Some(k - a);
        CodeInLocalFound(s, a, e, j, k);
      case None =>
        assert FirstBacktick(t, j - a + 1, e - a).None?;
    }
  }

  lemma CodeInFound(s: string, i: nat, e: nat, k: nat)
    requires i + 1 <= e <= |s| && StartsAt(s, i, "`") && FirstBacktick(s, i + 1, e) == Some(k)
    ensures CodeIn(s, i, e) == Some(Match(k + 1, s[i + 1..k]))
  {
  }

  lemma CodeInLocalFound(s: string, a: nat, e: nat, j: nat, k: nat)
    requires a <= j && j + 1 <= e <= |s| && StartsAt(s, j, "`") && StartsAt(s[a..e], j - a, "`")
    requires FirstBacktick(s, j + 1, e) == Some(k) && FirstBacktick(s[a..e], j - a + 1, e - a) == Some(k - a)
    ensures CodeIn(s, j, e) == ShiftMatch(CodeIn(s[a..e], j - a, e - a), a)
  {
    CodeInFound(s, j, e, k);
    CodeInFound(s[a..e], j - a, e - a, k - a);
    GroupShift(s, a, e, j, k, 1);
    ShiftFound(CodeIn(s, j, e), CodeIn(s[a..e], j - a, e - a), a, k + 1, k - a + 1, s[j + 1..k], s[a..e][j - a + 1..k - a]);
  }

  /** The heading or list-item match at `i`, given the end `e` of `i`'s line. */
  function HeadIn(s: string, i: nat, e: nat, lit: string): Option<Match>
    requires i <= e <= |s|
  {
    if StartsAt(s, i, lit) && i + |lit| <= e then Some(Match(e, s[i + |lit|..e])) else None
  }

  /** `MatchAt` with the line end given, and only the bound a scan needs in its contract. */
  function Find(p: Pass, s: string, i: nat, e: nat): (r: Option<Match>)
    requires i <= e <= |s|
    ensures r.Some? ==> i < r.value.end <= e
  {
    match p
    case Heading3 => HeadIn(s, i, e, "### ")
    case Heading2 => HeadIn(s, i, e, "## ")
    case ListItem => if AtLineStart(s, i) then HeadIn(s, i, e, "- ") else None
    case Bold => BoldIn(s, i, e)
    case InlineCode => CodeIn(s, i, e)
  }

  lemma HeadInIsRestOfLine(s: string, i: nat, lit: string)
    requires i <= |s| && NoTerminator(lit) && StartsAt(s, i, lit)
    ensures HeadIn(s, i, LineEnd(s, i), lit) == Some(RestOfLine(s, i, lit))
  {
    LeadHasNoTerminator(s, i, lit);
  }

  lemma FindIsMatch(p: Pass, s: string, i: nat)
    requires i <= |s|
    ensures MatchAt(p, s, i) == Find(p, s, i, LineEnd(s, i))
  {
    match p
    case Heading3 =>
      if StartsAt(s, i, "### ") {
        HeadInIsRestOfLine(s, i, "### ");
      }
    case Heading2 =>
      if StartsAt(s, i, "## ") {
        HeadInIsRestOfLine(s, i, "## ");
      }
    case ListItem =>
      if StartsAt(s, i, "- ") {
        HeadInIsRestOfLine(s, i, "- ");
      }
    case Bold => BoldAtIn(s, i);
    case InlineCode => CodeAtIn(s, i);
  }

  lemma HeadInLocal(s: string, a: nat, e: nat, j: nat, lit: string)
    requires a <= j <= e <= |s| && (e == |s| || IsLineTerminator(s[e])) && NoTerminator(lit)
    ensures HeadIn(s, j, e, lit) == ShiftMatch(HeadIn(s[a..e], j - a, e - a, lit), a)
  {
    StartsAtSlice(s, a, e, j, lit);
    if StartsAt(s, j, lit) && j + |lit| <= e {
      SliceOfSlice(s, a, e, j - a + |lit|, e - a);
    }
  }

  /** Whether and how a pattern matches at an index depends only on that index's line. */
  lemma FindLocal(p: Pass, s: string, a: nat, e: nat, j: nat)
    requires LineSpan(s, a, e) && a <= j <= e
    ensures Find(p, s, j, e) == ShiftMatch(Find(p, s[a..e], j - a, e - a), a)
  {
    match p
    case Heading3 => HeadInLocal(s, a, e, j, "### ");
    case Heading2 => HeadInLocal(s, a, e, j, "## ");
    case ListItem =>
      HeadInLocal(s, a, e, j, "- ");
      AtLineStartLocal(s, a, e, j);
    case Bold => BoldInLocal(s, a, e, j);
    case InlineCode => CodeInLocal(s, a, e, j);
  }

  // ---------------------------------------------------------------------------
  // A pass as a table of match attempts

  /** What a successful match contributes: where scanning resumes and the text emitted. */
  datatype Step = Step(end: nat, out: string)

  function AsStep(p: Pass, o: Option<Match>): Option<Step> {
    if o.None? then None else Some(Step(o.value.end, Replacement(p, o.value.group)))
  }

  function ShiftStep(o: Option<Step>, a: nat): Option<Step> {
    if o.None? then None else Some(Step(o.value.end + a, o.value.out))
  }

  /** The attempt of pass `p` at index `k`, which never looks past `k`'s line. */
  function Attempt(p: Pass, s: string, k: nat): Option<Step>
    requires k < |s|
  {
    AsStep(p, Find(p, s, k, LineEnd(s, k)))
  }

  /** The attempt of pass `p` at every index of `s`. */
  function Table(p: Pass, s: string): seq<Option<Step>> {
    seq(|s|, k requires 0 <= k < |s| => Attempt(p, s, k))
  }

  /** Every match in `tab` ends after it starts and within `s`. */
  predicate Bounded(s: string, tab: seq<Option<Step>>) {
    |tab| == |s| && forall k :: 0 <= k < |tab| && tab[k].Some? ==> k < tab[k].value.end <= |s|
  }

  /** The global replacement driven by a table of attempts. */
  function Run(s: string, tab: seq<Option<Step>>, i: nat): string
    requires Bounded(s, tab) && i <= |s|
    decreases |s| - i
  {
    if i == |s| then []
    else match tab[i]
      case Some(st) => st.out + Run(s, tab, st.end)
      case None => [s[i]] + Run(s, tab, i + 1)
  }

  lemma TableBounded(p: Pass, s: string)
    ensures Bounded(s, Table(p, s))
  {
  }

  lemma {:induction false} ScanIsRun(p: Pass, s: string, i: nat)
    requires i <= |s|
    ensures Bounded(s, Table(p, s)) && Scan(p, s, i) == Run(s, Table(p, s), i)
    decreases |s| - i, 1
  {
    TableBounded(p, s);
    if i < |s| {
      if MatchAt(p, s, i).Some? {
        ScanIsRunMatched(p, s, i);
      } else {
        ScanIsRunCopied(p, s, i);
      }
    }
  }

  lemma {:induction false} ScanIsRunMatched(p: Pass, s: string, i: nat)
    requires i < |s| && MatchAt(p, s, i).Some?
    ensures Bounded(s, Table(p, s)) && Scan(p, s, i) == Run(s, Table(p, s), i)
    decreases |s| - i, 0
  {
    ScanIsRun(p, s, MatchAt(p, s, i).value.end);
    TableIsMatch(p, s, i);
    ScanStep(p, s, i);
    RunStep(s, Table(p, s), i);
  }

  lemma {:induction false} ScanIsRunCopied(p: Pass, s: string, i: nat)
    requires i < |s| && MatchAt(p, s, i).None?
    ensures Bounded(s, Table(p, s)) && Scan(p, s, i) == Run(s, Table(p, s), i)
    decreases |s| - i, 0
  {
    ScanIsRun(p, s, i + 1);
    TableIsMatch(p, s, i);
    ScanStep(p, s, i);
    RunStep(s, Table(p, s), i);
  }

  lemma TableIsMatch(p: Pass, s: string, i: nat)
    requires i < |s|
    ensures Table(p, s)[i] == AsStep(p, MatchAt(p, s, i))
  {
    FindIsMatch(p, s, i);
  }

  /** `Run` unfolded once. */
  lemma RunStep(s: string, tab: seq<Option<Step>>, i: nat)
    requires Bounded(s, tab) && i < |s|
    ensures tab[i].Some? ==> Run(s, tab, i) == tab[i].value.out + Run(s, tab, tab[i].value.end)
    ensures tab[i].None? ==> Run(s, tab, i) == [s[i]] + Run(s, tab, i + 1)
  {
  }

  // ---------------------------------------------------------------------------
  // Runs over any table

  /** No match starts at any index from `from` up to `to`. */
  predicate Unmatched(tab: seq<Option<Step>>, from: nat, to: nat) {
    to <= |tab| && forall k :: from <= k < to ==> tab[k].None?
  }

  lemma {:induction false} RunCopy(s: string, tab: seq<Option<Step>>, from: nat, to: nat)
    requires Bounded(s, tab) && from <= to <= |s|
    requires Unmatched(tab, from, to)
    ensures Run(s, tab, from) == s[from..to] + Run(s, tab, to)
    decreases |s| - from
  {
    if from < to {
      RunCopy(s, tab, from + 1, to);
      assert s[from..to] == [s[from]] + s[from + 1..to];
      Regroup(Run(s, tab, from), Run(s, tab, from + 1), [s[from]], s[from + 1..to], s[from..to], Run(s, tab, to));
    } else {
      assert s[from..to] == [];
    }
  }

  /** With no match from `from` on, the rest of the text is copied unchanged. */
  lemma RunRest(s: string, tab: seq<Option<Step>>, from: nat)
    requires Bounded(s, tab) && from <= |s|
    requires Unmatched(tab, from, |s|)
    ensures Run(s, tab, from) == s[from..]
  {
    RunCopy(s, tab, from, |s|);
    assert Run(s, tab, |s|) == [];
    assert s[from..|s|] + [] == s[from..];
  }

  /** The first match from `from` on is at `i`: the text before it is copied, then it is replaced. */
  lemma RunAt(s: string, tab: seq<Option<Step>>, from: nat, i: nat, end: nat, out: string)
    requires Bounded(s, tab) && from <= i < |s|
    requires Unmatched(tab, from, i)
    requires tab[i] == Some(Step(end, out))
    ensures Run(s, tab, from) == s[from..i] + (out + Run(s, tab, end))
  {
    RunCopy(s, tab, from, i);
    RunStep(s, tab, i);
  }

  /** `t` and its table `tt` sit inside `s` and its table `tab` from index `a` on. */
  predicate Embeds(s: string, tab: seq<Option<Step>>, t: string, tt: seq<Option<Step>>, a: nat) {
    && |tab| == |s| && |tt| == |t| && a + |t| <= |s|
    && (forall k :: a <= k < a + |t| ==> s[k] == t[k - a])
    && (forall k :: a <= k < a + |t| ==> tab[k] == ShiftStep(tt[k - a], a))
  }

  /** Run over an embedded stretch: the stretch is run on its own, then the run carries on after it. */
  lemma {:induction false} RunLocal(s: string, tab: seq<Option<Step>>, t: string, tt: seq<Option<Step>>, a: nat, j: nat)
    requires Bounded(s, tab) && Bounded(t, tt) && Embeds(s, tab, t, tt, a)
    requires a <= j <= a + |t|
    ensures Run(s, tab, j) == Run(t, tt, j - a) + Run(s, tab, a + |t|)
    decreases |s| - j
  {
    var e := a + |t|;
    if j < e {
      assert tab[j] == ShiftStep(tt[j - a], a);
      match tt[j - a]
      case Some(st) =>
        RunLocal(s, tab, t, tt, a, st.end + a);
        Regroup(Run(s, tab, j), Run(s, tab, st.end + a), st.out, Run(t, tt, st.end), Run(t, tt, j - a), Run(s, tab, e));
      case None =>
        RunLocal(s, tab, t, tt, a, j + 1);
        Regroup(Run(s, tab, j), Run(s, tab, j + 1), [s[j]], Run(t, tt, j + 1 - a), Run(t, tt, j - a), Run(s, tab, e));
    } else {
      assert Run(t, tt, j - a) == [];
    }
  }

  lemma Regroup(x: string, y: string, c: string, u: string, v: string, w: string)
    requires x == c + y && y == u + w && v == c + u
    ensures x == v + w
  {
    assert c + (u + w) == (c + u) + w;
  }

  lemma Congruent(x: string, l: string, y: string, l2: string, y2: string, b: string)
    requires x == l + y && l == l2 && y == y2 && b == l2 + y2
    ensures x == b
  {
  }

  lemma Assoc3(x: string, y: string, z: string)
    ensures x + (y + z) == x + y + z
  {
  }

  lemma Assoc4(w: string, x: string, y: string, z: string)
    ensures w + (x + y + z) == w + x + y + z
  {
    assert x + y + z == x + (y + z);
  }

  // ---------------------------------------------------------------------------
  // Line by line

  /** A match attempt depends only on the line it starts in. */
  lemma AttemptLocal(p: Pass, s: string, a: nat, e: nat, k: nat)
    requires LineSpan(s, a, e) && a <= k < e
    ensures Attempt(p, s, k) == ShiftStep(Attempt(p, s[a..e], k - a), a)
  {
    LineEndLocal(s, a, e, k);
    FindLocal(p, s, a, e, k);
    AttemptWithin(p, s, k, e);
    var t, j := s[a..e], k - a;
    AttemptWithin(p, t, j, e - a);
    // The call is the same in every arm. Splitting on the pass keeps the
    // solver from unfolding the matchers of the other four passes.
    match p
    case Heading3 => ShiftChain(p, Attempt(p, s, k), Attempt(p, t, j), Find(p, s, k, e), Find(p, t, j, e - a), a);
    case Heading2 => ShiftChain(p, Attempt(p, s, k), Attempt(p, t, j), Find(p, s, k, e), Find(p, t, j, e - a), a);
    case Bold => ShiftChain(p, Attempt(p, s, k), Attempt(p, t, j), Find(p, s, k, e), Find(p, t, j, e - a), a);
    case ListItem => ShiftChain(p, Attempt(p, s, k), Attempt(p, t, j), Find(p, s, k, e), Find(p, t, j, e - a), a);
    case InlineCode => ShiftChain(p, Attempt(p, s, k), Attempt(p, t, j), Find(p, s, k, e), Find(p, t, j, e - a), a);
  }

  /** Shifting a match and turning it into a step commute, stated over values already computed. */
  lemma ShiftChain(p: Pass, x: Option<Step>, y: Option<Step>, f: Option<Match>, g: Option<Match>, a: nat)
    requires x == AsStep(p, f) && y == AsStep(p, g) && f == ShiftMatch(g, a)
    ensures x == ShiftStep(y, a)
  {
  }

  lemma AttemptWithin(p: Pass, s: string, k: nat, e: nat)
    requires k < |s| && LineEnd(s, k) == e
    ensures Attempt(p, s, k) == AsStep(p, Find(p, s, k, e))
  {
  }

  lemma TableLocal(p: Pass, s: string, a: nat, e: nat)
    requires LineSpan(s, a, e)
    ensures Embeds(s, Table(p, s), s[a..e], Table(p, s[a..e]), a)
  {
    forall k | a <= k < e
      ensures Table(p, s)[k] == ShiftStep(Table(p, s[a..e])[k - a], a)
    {
      AttemptLocal(p, s, a, e, k);
    }
  }

  /** No match starts at a line terminator. */
  lemma TableAtTerminator(p: Pass, s: string, e: nat)
    requires e < |s| && IsLineTerminator(s[e])
    ensures Table(p, s)[e].None?
  {
    assert LineEnd(s, e) == e;
  }

  /** The run over the line starting at `b` is that line rewritten by `f`, and
      the terminator after it, if any, is copied. */
  predicate LineDone(f: string -> string, s: string, tab: seq<Option<Step>>, b: nat)
    requires Bounded(s, tab) && b <= |s|
  {
    && Run(s, tab, b) == f(s[b..LineEnd(s, b)]) + Run(s, tab, LineEnd(s, b))
    && (LineEnd(s, b) < |s| ==> tab[LineEnd(s, b)].None?)
  }

  lemma LineDoneAt(p: Pass, s: string, b: nat)
    requires b <= |s| && AtLineStart(s, b)
    ensures Bounded(s, Table(p, s)) && LineDone(LineRewriter(p), s, Table(p, s), b)
  {
    var e := LineEnd(s, b);
    var t := s[b..e];
    TableBounded(p, s);
    TableBounded(p, t);
    TableLocal(p, s, b, e);
    LineRun(p, t);
    assert LineRewriter(p)(t) == LineRewrite(p, t);
    if e < |s| {
      TableAtTerminator(p, s, e);
    }
    LineDoneFrom(LineRewriter(p), s, Table(p, s), b, Table(p, t));
  }

  /** A line is done when its own run is the rewritten line and no match starts at its terminator. */
  lemma LineDoneFrom(f: string -> string, s: string, tab: seq<Option<Step>>, b: nat, tt: seq<Option<Step>>)
    requires b <= |s| && Bounded(s, tab) && Bounded(s[b..LineEnd(s, b)], tt)
    requires Embeds(s, tab, s[b..LineEnd(s, b)], tt, b)
    requires Run(s[b..LineEnd(s, b)], tt, 0) == f(s[b..LineEnd(s, b)])
    requires LineEnd(s, b) < |s| ==> tab[LineEnd(s, b)].None?
    ensures LineDone(f, s, tab, b)
  {
    var e := LineEnd(s, b);
    var t := s[b..e];
    RunLocal(s, tab, t, tt, b, b);
    assert b + |t| == e;
  }

  /** ByLines unfolded once. */
  lemma ByLinesStep(f: string -> string, s: string, a: nat)
    requires a <= |s|
    ensures LineEnd(s, a) < |s| ==>
      ByLines(f, s, a) == f(s[a..LineEnd(s, a)]) + ([s[LineEnd(s, a)]] + ByLines(f, s, LineEnd(s, a) + 1))
    ensures LineEnd(s, a) == |s| ==> ByLines(f, s, a) == f(s[a..LineEnd(s, a)]) + []
  {
  }

  /** A table whose every line is done runs as the lines rewritten one by one. */
  lemma {:induction false} RunLines(f: string -> string, s: string, tab: seq<Option<Step>>, a: nat)
    requires Bounded(s, tab) && a <= |s| && AtLineStart(s, a)
    requires forall b :: a <= b <= |s| && AtLineStart(s, b) ==> LineDone(f, s, tab, b)
    ensures Run(s, tab, a) == ByLines(f, s, a)
    decreases |s| - a
  {
    var e := LineEnd(s, a);
    var line := f(s[a..e]);
    assert LineDone(f, s, tab, a);
    ByLinesStep(f, s, a);
    if e < |s| {
      assert AtLineStart(s, e + 1);
      RunLines(f, s, tab, e + 1);
      assert Run(s, tab, e) == [s[e]] + Run(s, tab, e + 1);
      Congruent(Run(s, tab, a), line, Run(s, tab, e), line, [s[e]] + ByLines(f, s, e + 1), ByLines(f, s, a));
    } else {
      assert Run(s, tab, e) == [];
      Congruent(Run(s, tab, a), line, Run(s, tab, e), line, [], ByLines(f, s, a));
    }
  }

  /** One pass over the whole text equals the pass applied line by line. */
  lemma ScanByLines(p: Pass, s: string)
    ensures Scan(p, s, 0) == ByLines(LineRewriter(p), s, 0)
  {
    ScanIsRun(p, s, 0);
    forall b | 0 <= b <= |s| && AtLineStart(s, b)
      ensures LineDone(LineRewriter(p), s, Table(p, s), b)
    {
      LineDoneAt(p, s, b);
    }
    RunLines(LineRewriter(p), s, Table(p, s), 0);
  }

  // ---------------------------------------------------------------------------
  // Within one line

  /** On one line, a pass does what `LineRewrite` says. */
  lemma LineRun(p: Pass, t: string)
    requires NoTerminator(t)
    ensures Bounded(t, Table(p, t)) && Run(t, Table(p, t), 0) == LineRewrite(p, t)
    ensures Scan(p, t, 0) == LineRewrite(p, t)
  {
    TableBounded(p, t);
    ScanIsRun(p, t, 0);
    match p
    case Heading3 => HeadingRun(p, t);
    case Heading2 => HeadingRun(p, t);
    case ListItem => ListItemRun(t);
    case Bold => BoldRun(t);
    case InlineCode => CodeRun(t);
  }

  /** The attempt of a heading or list pattern at `j` of a line: when its marker is
      there, the rest of the line, wrapped. */
  function HeadStep(t: string, j: nat, lit: string, open: string, close: string): Option<Step> {
    if StartsAt(t, j, lit) then Some(Step(|t|, open + t[j + |lit|..] + close)) else None
  }

  lemma HeadStepAt(t: string, i: nat, lit: string, open: string, close: string)
    requires StartsAt(t, i, lit)
    ensures HeadStep(t, i, lit, open, close) == Some(Step(|t|, open + t[i + |lit|..] + close))
  {
  }

  /** A table of heading attempts runs as the first marker's rest of line, wrapped. */
  lemma HeadRunOn(t: string, tab: seq<Option<Step>>, lit: string, open: string, close: string)
    requires lit != [] && Bounded(t, tab)
    requires forall j :: 0 <= j < |t| ==> tab[j] == HeadStep(t, j, lit, open, close)
    ensures Run(t, tab, 0) == HeadRewrite(t, lit, open, close)
  {
    if FirstAt(t, lit, 0).None? {
      HeadRunNone(t, tab, lit, open, close);
    } else {
      HeadRunFirst(t, tab, lit, open, close, FirstAt(t, lit, 0).value);
    }
  }

  /** Without the marker, a heading pattern matches nowhere. */
  lemma HeadRunNone(t: string, tab: seq<Option<Step>>, lit: string, open: string, close: string)
    requires lit != [] && Bounded(t, tab) && FirstAt(t, lit, 0).None?
    requires forall j :: 0 <= j < |t| ==> tab[j] == HeadStep(t, j, lit, open, close)
    ensures Run(t, tab, 0) == t
  {
    forall j | 0 <= j < |t|
      ensures tab[j].None?
    {
      assert !StartsAt(t, j, lit);
      assert tab[j] == HeadStep(t, j, lit, open, close);
    }
    RunRest(t, tab, 0);
    assert t[0..] == t;
  }

  lemma HeadRunFirst(t: string, tab: seq<Option<Step>>, lit: string, open: string, close: string, i: nat)
    requires lit != [] && Bounded(t, tab) && FirstAt(t, lit, 0) == Some(i)
    requires forall j :: 0 <= j < |t| ==> tab[j] == HeadStep(t, j, lit, open, close)
    ensures Run(t, tab, 0) == t[..i] + open + t[i + |lit|..] + close
  {
    var out := open + t[i + |lit|..] + close;
    HeadStepAt(t, i, lit, open, close);
    assert tab[i] == HeadStep(t, i, lit, open, close);
    RunAt(t, tab, 0, i, |t|, out);
    assert Run(t, tab, |t|) == [];
    assert t[0..i] == t[..i];
    Congruent(Run(t, tab, 0), t[0..i], out + Run(t, tab, |t|), t[..i], out, t[..i] + out);
    Assoc4(t[..i], open, t[i + |lit|..], close);
  }

  /** A heading pattern matches where its marker occurs, and takes the rest of the line. */
  lemma HeadingEntry(p: Pass, t: string, j: nat)
    requires (p.Heading3? || p.Heading2?) && NoTerminator(t) && j < |t|
    ensures Table(p, t)[j] == HeadStep(t, j, Lead(p), Open(p), Close(p))
  {
    SingleLineEnd(t, j);
    var lit := Lead(p);
    assert Table(p, t)[j] == AsStep(p, Find(p, t, j, |t|));
    assert Find(p, t, j, |t|) == HeadIn(t, j, |t|, lit);
    if StartsAt(t, j, lit) {
      assert t[j + |lit|..|t|] == t[j + |lit|..];
    }
  }

  lemma HeadingRun(p: Pass, t: string)
    requires (p.Heading3? || p.Heading2?) && NoTerminator(t)
    ensures Bounded(t, Table(p, t)) && Run(t, Table(p, t), 0) == LineRewrite(p, t)
  {
    TableBounded(p, t);
    forall j | 0 <= j < |t|
      ensures Table(p, t)[j] == HeadStep(t, j, Lead(p), Open(p), Close(p))
    {
      HeadingEntry(p, t, j);
    }
    HeadRunOn(t, Table(p, t), Lead(p), Open(p), Close(p));
  }

  /** The list pattern matches only at the start of the line. */
  lemma ListItemEntry(t: string, j: nat)
    requires NoTerminator(t) && j < |t|
    ensures j == 0 ==> Table(ListItem, t)[j] == HeadStep(t, 0, "- ", Bullet, "")
    ensures j > 0 ==> Table(ListItem, t)[j].None?
  {
    SingleLineEnd(t, j);
    assert Table(ListItem, t)[j] == AsStep(ListItem, Find(ListItem, t, j, |t|));
    if j > 0 {
      assert !AtLineStart(t, j);
    } else if StartsAt(t, 0, "- ") {
      assert t[2..|t|] == t[2..];
    }
  }

  lemma ListItemRun(t: string)
    requires NoTerminator(t)
    ensures Bounded(t, Table(ListItem, t)) && Run(t, Table(ListItem, t), 0) == LineRewrite(ListItem, t)
  {
    var tab := Table(ListItem, t);
    TableBounded(ListItem, t);
    forall j | 0 <= j < |t|
      ensures if j == 0 then tab[j] == HeadStep(t, 0, "- ", Bullet, "") else tab[j].None?
    {
      ListItemEntry(t, j);
    }
    if StartsAt(t, 0, "- ") {
      RunAt(t, tab, 0, 0, |t|, Bullet + t[2..] + "");
      assert Run(t, tab, |t|) == [];
      assert Run(t, tab, 0) == [] + (Bullet + t[2..] + "" + []);
    } else if |t| > 0 {
      RunRest(t, tab, 0);
    } else {
      assert Run(t, tab, 0) == [];
    }
  }

  /** The greedy search from `lo` finds the line's last `**` when that is at or after `lo`. */
  lemma LastPairIsLast(t: string, lo: nat, k: nat)
    requires lo <= k && LastAt(t, "**", |t|) == Some(k)
    ensures LastPair(t, lo, |t|) == Some(k)
  {
  }

  /** Past the line's last `**`, the greedy search finds nothing. */
  lemma LastPairAfterLast(t: string, lo: nat, k: nat)
    requires k < lo <= |t| && LastAt(t, "**", |t|) == Some(k)
    ensures LastPair(t, lo, |t|).None?
  {
  }

  /** The attempt of the bold pattern at `j` of a line whose last `**` is at `k`:
      an opening `**` with room for the closing one at `k`. */
  function BoldStep(t: string, j: nat, k: nat): Option<Step>
    requires k <= |t|
  {
    if StartsAt(t, j, "**") && j + 2 <= k then Some(Step(k + 2, "<strong>" + t[j + 2..k] + "</strong>")) else None
  }

  /** A table of bold attempts runs as the first and the last `**` enclosing the bold text. */
  lemma BoldRunOn(t: string, tab: seq<Option<Step>>, k: nat)
    requires Bounded(t, tab) && LastAt(t, "**", |t|) == Some(k)
    requires forall j :: 0 <= j < |t| ==> tab[j] == BoldStep(t, j, k)
    ensures Run(t, tab, 0) == LineRewrite(Bold, t)
  {
    var i :| FirstAt(t, "**", 0) == Some(i);
    if i + 2 <= k {
      BoldRunPair(t, tab, i, k);
    } else {
      BoldRunUnpaired(t, tab, i, k);
    }
  }

  /** Before the first `**` and after the last one, nothing matches. */
  lemma BoldStepOutside(t: string, i: nat, k: nat, j: nat)
    requires FirstAt(t, "**", 0) == Some(i) && LastAt(t, "**", |t|) == Some(k)
    requires j < i || k < j
    ensures BoldStep(t, j, k).None?
  {
  }

  lemma BoldRunPair(t: string, tab: seq<Option<Step>>, i: nat, k: nat)
    requires Bounded(t, tab) && k <= |t|
    requires forall j :: 0 <= j < |t| ==> tab[j] == BoldStep(t, j, k)
    requires FirstAt(t, "**", 0) == Some(i) && LastAt(t, "**", |t|) == Some(k) && i + 2 <= k
    ensures Run(t, tab, 0) == t[..i] + "<strong>" + t[i + 2..k] + "</strong>" + t[k + 2..]
  {
    BoldNoneOutside(t, tab, i, k);
    assert tab[i] == BoldStep(t, i, k);
    BoldRunSpan(t, tab, i, k);
  }

  /** The run of a line whose only match is the bold span from `i` to `k + 2`. */
  lemma BoldRunSpan(t: string, tab: seq<Option<Step>>, i: nat, k: nat)
    requires Bounded(t, tab) && i + 2 <= k && k + 2 <= |t|
    requires Unmatched(tab, 0, i) && Unmatched(tab, k + 2, |t|)
    requires tab[i] == Some(Step(k + 2, "<strong>" + t[i + 2..k] + "</strong>"))
    ensures Run(t, tab, 0) == t[..i] + "<strong>" + t[i + 2..k] + "</strong>" + t[k + 2..]
  {
    var open := "<strong>" + t[i + 2..k] + "</strong>";
    RunAt(t, tab, 0, i, k + 2, open);
    RunRest(t, tab, k + 2);
    BoldPairGlue(t, i, k, Run(t, tab, 0));
  }

  /** No bold match starts before the first `**` or after the last one. */
  lemma BoldNoneOutside(t: string, tab: seq<Option<Step>>, i: nat, k: nat)
    requires |tab| == |t| && k <= |t|
    requires forall j :: 0 <= j < |t| ==> tab[j] == BoldStep(t, j, k)
    requires FirstAt(t, "**", 0) == Some(i) && LastAt(t, "**", |t|) == Some(k) && i <= k
    ensures Unmatched(tab, 0, i) && Unmatched(tab, k + 2, |t|)
  {
    forall j | 0 <= j < i || k + 2 <= j < |t|
      ensures tab[j].None?
    {
      BoldStepOutside(t, i, k, j);
    }
  }

  lemma BoldPairGlue(t: string, i: nat, k: nat, r: string)
    requires i + 2 <= k && k + 2 <= |t|
    requires r == t[0..i] + (("<strong>" + t[i + 2..k] + "</strong>") + t[k + 2..])
    ensures r == t[..i] + "<strong>" + t[i + 2..k] + "</strong>" + t[k + 2..]
  {
    var open := "<strong>" + t[i + 2..k] + "</strong>";
    assert t[0..i] == t[..i];
    Assoc3(t[..i], open, t[k + 2..]);
    Assoc4(t[..i], "<strong>", t[i + 2..k], "</strong>");
  }

  lemma BoldRunUnpaired(t: string, tab: seq<Option<Step>>, i: nat, k: nat)
    requires Bounded(t, tab) && k <= |t|
    requires forall j :: 0 <= j < |t| ==> tab[j] == BoldStep(t, j, k)
    requires FirstAt(t, "**", 0) == Some(i) && k < i + 2
    ensures Run(t, tab, 0) == t
  {
    forall j | 0 <= j < |t|
      ensures tab[j].None?
    {
      assert tab[j] == BoldStep(t, j, k);
    }
    RunRest(t, tab, 0);
    assert t[0..] == t;
  }

  /** The bold pattern at `j` of a line: an opening `**` and the line's last one after it. */
  lemma BoldEntry(t: string, j: nat, k: nat)
    requires NoTerminator(t) && j < |t| && LastAt(t, "**", |t|) == Some(k)
    ensures Table(Bold, t)[j] == BoldStep(t, j, k)
  {
    SingleLineEnd(t, j);
    assert Table(Bold, t)[j] == AsStep(Bold, BoldIn(t, j, |t|));
    if StartsAt(t, j, "**") {
      if j + 2 <= k {
        LastPairIsLast(t, j + 2, k);
        BoldInFound(t, j, |t|, k);
        BoldStepFound(t, j, k);
      } else {
        LastPairAfterLast(t, j + 2, k);
        assert BoldIn(t, j, |t|).None?;
        assert BoldStep(t, j, k).None?;
      }
    } else {
      assert BoldIn(t, j, |t|).None?;
      assert BoldStep(t, j, k).None?;
    }
  }

  lemma BoldStepFound(t: string, j: nat, k: nat)
    requires j + 2 <= k <= |t| && StartsAt(t, j, "**")
    ensures AsStep(Bold, Some(Match(k + 2, t[j + 2..k]))) == BoldStep(t, j, k)
  {
  }

  /** A line without `**` has no bold match. */
  lemma BoldEntryNone(t: string, j: nat)
    requires NoTerminator(t) && j < |t| && LastAt(t, "**", |t|).None?
    ensures Table(Bold, t)[j].None?
  {
    SingleLineEnd(t, j);
    assert Table(Bold, t)[j] == AsStep(Bold, BoldIn(t, j, |t|));
  }

  lemma BoldRun(t: string)
    requires NoTerminator(t)
    ensures Bounded(t, Table(Bold, t)) && Run(t, Table(Bold, t), 0) == LineRewrite(Bold, t)
  {
    TableBounded(Bold, t);
    match LastAt(t, "**", |t|)
    case None =>
      forall j | 0 <= j < |t|
        ensures Table(Bold, t)[j].None?
      {
        BoldEntryNone(t, j);
      }
      RunRest(t, Table(Bold, t), 0);
      assert t[0..] == t;
      assert FirstAt(t, "**", 0).None?;
    case Some(k) =>
      forall j | 0 <= j < |t|
        ensures Table(Bold, t)[j] == BoldStep(t, j, k)
      {
        BoldEntry(t, j, k);
      }
      BoldRunOn(t, Table(Bold, t), k);
  }

  /** A one-character literal occurs exactly where that character is. */
  lemma BacktickAt(t: string, j: nat)
    ensures StartsAt(t, j, "`") <==> j < |t| && t[j] == '`'
  {
    if j < |t| {
      assert t[j..j + 1] == [t[j]];
    }
  }

  /** The first backtick at or after `lo`, found by either search. */
  lemma FirstBacktickIsFirstAt(t: string, lo: nat)
    requires lo <= |t|
    ensures FirstBacktick(t, lo, |t|) == FirstAt(t, "`", lo)
  {
    forall j | lo <= j < |t|
      ensures StartsAt(t, j, "`") <==> t[j] == '`'
    {
      BacktickAt(t, j);
    }
    match FirstAt(t, "`", lo)
    case None =>
    case Some(i) => BacktickAt(t, i);
  }

  /** The attempt of the code pattern at `j` of a line: a backtick and the next one. */
  function CodeStep(t: string, j: nat): Option<Step> {
    if StartsAt(t, j, "`") then
      match FirstAt(t, "`", j + 1)
      case None => None
      case Some(k) => Some(Step(k + 1, "<code>" + t[j + 1..k] + "</code>"))
    else None
  }

  lemma CodeSpansPair(t: string, from: nat, i: nat, k: nat)
    requires from <= |t| && FirstAt(t, "`", from) == Some(i) && FirstAt(t, "`", i + 1) == Some(k)
    ensures CodeSpans(t, from) == t[from..i] + "<code>" + t[i + 1..k] + "</code>" + CodeSpans(t, k + 1)
  {
    assert from <= i && i + 1 <= k && k + 1 <= |t|;
    var x := CodeSpans(t, from);
    assert x == t[from..i] + "<code>" + t[i + 1..k] + "</code>" + CodeSpans(t, k + 1);
  }

  /** A table of code attempts runs as backticks paired left to right. */
  lemma {:induction false} CodeRunOn(t: string, tab: seq<Option<Step>>, from: nat)
    requires Bounded(t, tab) && from <= |t|
    requires forall j :: 0 <= j < |t| ==> tab[j] == CodeStep(t, j)
    ensures Run(t, tab, from) == CodeSpans(t, from)
    decreases |t| - from
  {
    match FirstAt(t, "`", from)
    case None =>
      CodeRunCopy(t, tab, from);
    case Some(i) =>
      match FirstAt(t, "`", i + 1) {
        case None =>
          CodeRunCopy(t, tab, from);
        case Some(k) =>
          CodeRunPair(t, tab, from, i, k);
          CodeRunOn(t, tab, k + 1);
          CodeSpansPair(t, from, i, k);
          var c := "<code>" + t[i + 1..k] + "</code>";
          Assoc4(t[from..i], "<code>", t[i + 1..k], "</code>");
          Congruent(Run(t, tab, from), t[from..i] + c, Run(t, tab, k + 1), t[from..i] + c, CodeSpans(t, k + 1), CodeSpans(t, from));
      }
  }

  /** Without a pair of backticks from `from` on, the rest of the line is copied. */
  lemma CodeRunCopy(t: string, tab: seq<Option<Step>>, from: nat)
    requires Bounded(t, tab) && from <= |t|
    requires forall j :: 0 <= j < |t| ==> tab[j] == CodeStep(t, j)
    requires FirstAt(t, "`", from).None? || FirstAt(t, "`", FirstAt(t, "`", from).value + 1).None?
    ensures Run(t, tab, from) == CodeSpans(t, from)
  {
    forall j | from <= j < |t|
      ensures tab[j].None?
    {
      assert tab[j] == CodeStep(t, j);
    }
    RunRest(t, tab, from);
  }

  lemma CodeStepAt(t: string, i: nat, k: nat)
    requires StartsAt(t, i, "`") && FirstAt(t, "`", i + 1) == Some(k)
    ensures CodeStep(t, i) == Some(Step(k + 1, "<code>" + t[i + 1..k] + "</code>"))
  {
  }

  /** A backtick pair: the text before it is copied and the pair becomes a code span. */
  lemma CodeRunPair(t: string, tab: seq<Option<Step>>, from: nat, i: nat, k: nat)
    requires Bounded(t, tab) && from <= |t|
    requires forall j :: 0 <= j < |t| ==> tab[j] == CodeStep(t, j)
    requires FirstAt(t, "`", from) == Some(i) && FirstAt(t, "`", i + 1) == Some(k)
    ensures Run(t, tab, from) == t[from..i] + ("<code>" + t[i + 1..k] + "</code>") + Run(t, tab, k + 1)
  {
    var c := "<code>" + t[i + 1..k] + "</code>";
    CodeNoneBefore(t, tab, from, i);
    CodeStepAt(t, i, k);
    assert tab[i] == Some(Step(k + 1, c));
    RunAt(t, tab, from, i, k + 1, c);
    Assoc3(t[from..i], c, Run(t, tab, k + 1));
  }

  /** No code span starts before the first backtick. */
  lemma CodeNoneBefore(t: string, tab: seq<Option<Step>>, from: nat, i: nat)
    requires |tab| == |t| && FirstAt(t, "`", from) == Some(i)
    requires forall j :: 0 <= j < |t| ==> tab[j] == CodeStep(t, j)
    ensures forall j :: from <= j < i ==> tab[j].None?
  {
    forall j | from <= j < i
      ensures tab[j].None?
    {
      assert tab[j] == CodeStep(t, j);
    }
  }

  /** The code pattern at `j` of a line: a backtick and the next one. */
  lemma CodeEntry(t: string, j: nat)
    requires NoTerminator(t) && j < |t|
    ensures Table(InlineCode, t)[j] == CodeStep(t, j)
  {
    SingleLineEnd(t, j);
    assert Table(InlineCode, t)[j] == AsStep(InlineCode, CodeIn(t, j, |t|));
    BacktickAt(t, j);
    FirstBacktickIsFirstAt(t, j + 1);
  }

  lemma CodeRun(t: string)
    requires NoTerminator(t)
    ensures Bounded(t, Table(InlineCode, t)) && Run(t, Table(InlineCode, t), 0) == LineRewrite(InlineCode, t)
  {
    TableBounded(InlineCode, t);
    forall j | 0 <= j < |t|
      ensures Table(InlineCode, t)[j] == CodeStep(t, j)
    {
      CodeEntry(t, j);
    }
    CodeRunOn(t, Table(InlineCode, t), 0);
  }

  // ---------------------------------------------------------------------------
  // The whole of parseMarkdownBasic, line by line

  /** Chained global replacements equal the same passes applied line by line. */
  lemma {:induction false} ApplyPassesByLines(ps: seq<Pass>, s: string)
    ensures ApplyPasses(ps, s) == RewriteByLines(ps, s)
    decreases |ps|
  {
    if ps != [] {
      ScanByLines(ps[0], s);
      ApplyPassesByLines(ps[1..], Scan(ps[0], s, 0));
    }
  }

  /** A non-empty description is converted line by line, five passes in order;
      an absent or empty one becomes the placeholder. */
  lemma ParseByLines(body: Option<string>)
    ensures Falsy(body) ==> ParseMarkdownBasic(body) == Placeholder
    ensures !Falsy(body) ==> ParseMarkdownBasic(body) == RewriteByLines(Passes, body.value)
  {
    if !Falsy(body) {
      ApplyPassesByLines(Passes, body.value);
    }
  }
}
