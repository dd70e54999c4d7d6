/** `parseMarkdownBasic`: five global regular-expression replacements applied
    in a fixed order to a release description.

    Each replacement is modelled the way `String.prototype.replace` runs a
    global regular expression: try a match at the current position; on
    success emit the replacement and resume at the end of the match, on
    failure copy one character and try the next position. None of the five
    patterns can match the empty string, so no empty-match advance is needed. */
module Markdown {
  import opened Wrappers
  import opened Lines

  /** What a missing or empty description is shown as. */
  const Placeholder: string := "Açıklama belirtilmemiş."

  // The heading tags are concatenations of short pieces. The solver proves
  // facts about the pieces (no line terminator, no markup) one at a time.
  const HeadingColor: string := "style=\"color: " + "var(--text-primary); "
  const H3Open: string := "<h3 " + HeadingColor + "margin: 1rem " + "0 0.5rem 0;\">"
  const H2Open: string := "<h2 " + HeadingColor + "margin: 1.2rem " + "0 0.6rem 0;\">"
  const Bullet: string := "• "

  /** The five passes, in the order they run. */
  datatype Pass =
    | Heading3    // /### (.*)/g
    | Heading2    // /## (.*)/g
    | Bold        // /\*\*(.*)\*\*/g
    | ListItem    // /^- (.*)/gm
    | InlineCode  // /`(.*?)`/g

  /** The literal text a pass's pattern requires before its capture group. */
  function Lead(p: Pass): string {
    match p
    case Heading3 => "### "
    case Heading2 => "## "
    case Bold => "**"
    case ListItem => "- "
    case InlineCode => "`"
  }

  /** The literal text a pass's pattern requires after its capture group. */
  function Trail(p: Pass): string {
    match p
    case Bold => "**"
    case InlineCode => "`"
    case _ => ""
  }

  /** The replacement string's text before `$1`. */
  function Open(p: Pass): string {
    match p
    case Heading3 => H3Open
    case Heading2 => H2Open
    case Bold => "<strong>"
    case ListItem => Bullet
    case InlineCode => "<code>"
  }

  /** The replacement string's text after `$1`. */
  function Close(p: Pass): string {
    match p
    case Heading3 => "</h3>"
    case Heading2 => "</h2>"
    case Bold => "</strong>"
    case ListItem => ""
    case InlineCode => "</code>"
  }

  /** A successful match: where it ends (exclusive) and what group 1 captured. */
  datatype Match = Match(end: nat, group: string)

  /** The greedy `(.*)\*\*` of the bold pattern: `.*` first runs to `hi` (the
      line end) and gives back one character at a time until `**` follows, so
      the closing `**` is the last one of the line that starts at or after `lo`. */
  function LastPair(s: string, lo: nat, hi: nat): (r: Option<nat>)
    requires lo <= hi <= |s|
    ensures r.Some? ==> lo <= r.value && r.value + 2 <= hi && StartsAt(s, r.value, "**")
    ensures r.Some? ==> forall k :: r.value < k && k + 2 <= hi ==> !StartsAt(s, k, "**")
    ensures r.None? ==> forall k :: lo <= k && k + 2 <= hi ==> !StartsAt(s, k, "**")
    decreases hi
  {
    if hi < lo + 2 then None
    else if StartsAt(s, hi - 2, "**") then Some(hi - 2)
    else LastPair(s, lo, hi - 1)
  }

  /** The lazy `(.*?)\`` of the code pattern: `.*?` first matches nothing and
      takes one more character at a time until a backtick follows, so the
      closing backtick is the first one at or after `lo` and before `hi`. */
  function FirstBacktick(s: string, lo: nat, hi: nat): (r: Option<nat>)
    requires lo <= hi <= |s|
    ensures r.Some? ==> lo <= r.value < hi && s[r.value] == '`'
    ensures r.Some? ==> forall k :: lo <= k < r.value ==> s[k] != '`'
    ensures r.None? ==> forall k :: lo <= k < hi ==> s[k] != '`'
    decreases hi - lo
  {
    if lo == hi then None
    else if s[lo] == '`' then Some(lo)
    else FirstBacktick(s, lo + 1, hi)
  }

  /** Independent statement of when pass `p`'s pattern matches at index `i`. */
  ghost predicate CanMatch(p: Pass, s: string, i: nat)
    requires i <= |s|
  {
    match p
    case Heading3 => StartsAt(s, i, "### ")
    case Heading2 => StartsAt(s, i, "## ")
    case Bold =>
      StartsAt(s, i, "**")
      && exists k :: i + 2 <= k && k + 2 <= LineEnd(s, i) && StartsAt(s, k, "**")
    case ListItem => AtLineStart(s, i) && StartsAt(s, i, "- ")
    case InlineCode =>
      StartsAt(s, i, "`") && exists k :: i < k < LineEnd(s, i) && s[k] == '`'
  }

  lemma LeadHasNoTerminator(s: string, i: nat, lit: string)
    requires StartsAt(s, i, lit)
    requires NoTerminator(lit)
    ensures NoTerminator(s[i..i + |lit|])
    ensures LineEnd(s, i) == LineEnd(s, i + |lit|)
  {
    LineEndWithinLine(s, i, i + |lit|);
  }

  /** `lit(.*)` matched at `i`: the group is everything up to the end of the line. */
  function RestOfLine(s: string, i: nat, lit: string): (m: Match)
    requires StartsAt(s, i, lit) && NoTerminator(lit)
    ensures m.end == LineEnd(s, i) && i + |lit| <= m.end
    ensures s[i..m.end] == lit + m.group
    ensures NoTerminator(s[i..m.end])
  {
    var start := i + |lit|;
    LeadHasNoTerminator(s, i, lit);
    var e := LineEnd(s, start);
    assert s[i..e] == s[i..start] + s[start..e];
    Match(e, s[start..e])
  }

  /** The text from an opening delimiter at `i` through a closing one at `k`
      lies within one line and has the expected shape. */
  lemma DelimitedSpan(s: string, i: nat, k: nat, e: nat, lead: string, trail: string)
    requires StartsAt(s, i, lead) && StartsAt(s, k, trail)
    requires i + |lead| <= k && k + |trail| <= e <= |s|
    requires NoTerminator(s[i + |lead|..e]) && NoTerminator(lead) && NoTerminator(trail)
    ensures s[i..k + |trail|] == lead + s[i + |lead|..k] + trail
    ensures NoTerminator(s[i..k + |trail|])
  {
    var a := i + |lead|;
    assert s[i..k + |trail|] == s[i..a] + s[a..k] + s[k..k + |trail|];
    assert forall j :: a <= j < k ==> s[j] == s[a..e][j - a];
  }

  /** `\*\*(.*)\*\*` attempted at `i`. */
  function BoldAt(s: string, i: nat): (r: Option<Match>)
    requires i <= |s|
    ensures r.Some? <==> CanMatch(Bold, s, i)
    ensures r.Some? ==> i < r.value.end <= |s|
    ensures r.Some? ==> s[i..r.value.end] == "**" + r.value.group + "**"
    ensures r.Some? ==> NoTerminator(s[i..r.value.end])
    ensures r.Some? ==>
      forall k :: r.value.end - 2 < k && k + 2 <= LineEnd(s, i) ==> !StartsAt(s, k, "**")
  {
    if StartsAt(s, i, "**") then
      LeadHasNoTerminator(s, i, "**");
      var e := LineEnd(s, i + 2);
      match LastPair(s, i + 2, e)
      case Some(k) =>
        DelimitedSpan(s, i, k, e, "**", "**");
        Some(Match(k + 2, s[i + 2..k]))
      case None =>
        None
    else
      None
  }

  /** `\`(.*?)\`` attempted at `i`. */
  function CodeAt(s: string, i: nat): (r: Option<Match>)
    requires i <= |s|
    ensures r.Some? <==> CanMatch(InlineCode, s, i)
    ensures r.Some? ==> i < r.value.end <= |s|
    ensures r.Some? ==> s[i..r.value.end] == "`" + r.value.group + "`"
    ensures r.Some? ==> NoTerminator(s[i..r.value.end])
    ensures r.Some? ==> forall k :: 0 <= k < |r.value.group| ==> r.value.group[k] != '`'
  {
    if StartsAt(s, i, "`") then
      LeadHasNoTerminator(s, i, "`");
      var e := LineEnd(s, i + 1);
      match FirstBacktick(s, i + 1, e)
      case Some(k) =>
        DelimitedSpan(s, i, k, e, "`", "`");
        Some(Match(k + 1, s[i + 1..k]))
      case None =>
        None
    else
      None
  }

  /** The regular-expression match of pass `p` attempted at index `i`. */
  function MatchAt(p: Pass, s: string, i: nat): (r: Option<Match>)
    requires i <= |s|
    ensures r.Some? <==> CanMatch(p, s, i)
    ensures r.Some? ==> i < r.value.end <= |s|
    ensures r.Some? ==> s[i..r.value.end] == Lead(p) + r.value.group + Trail(p)
    ensures r.Some? ==> NoTerminator(s[i..r.value.end])
    // `(.*)` is greedy: the heading and list patterns run to the end of the line
    ensures r.Some? && (p.Heading3? || p.Heading2? || p.ListItem?) ==> r.value.end == LineEnd(s, i)
    // the bold pattern closes at the line's last `**`
    ensures r.Some? && p.Bold? ==>
      forall k :: r.value.end - 2 < k && k + 2 <= LineEnd(s, i) ==> !StartsAt(s, k, "**")
    // `(.*?)` is lazy: the code pattern closes at the first backtick
    ensures r.Some? && p.InlineCode? ==> forall k :: 0 <= k < |r.value.group| ==> r.value.group[k] != '`'
  {
    match p
    case Heading3 =>
      if StartsAt(s, i, "### ") then
        var m := RestOfLine(s, i, "### ");
        assert s[i..m.end] == Lead(p) + m.group + Trail(p);
        Some(m)
      else None
    case Heading2 =>
      if StartsAt(s, i, "## ") then
        var m := RestOfLine(s, i, "## ");
        assert s[i..m.end] == Lead(p) + m.group + Trail(p);
        Some(m)
      else None
    case ListItem =>
      if AtLineStart(s, i) && StartsAt(s, i, "- ") then
        var m := RestOfLine(s, i, "- ");
        assert s[i..m.end] == Lead(p) + m.group + Trail(p);
        Some(m)
      else None
    case Bold => BoldAt(s, i)
    case InlineCode => CodeAt(s, i)
  }

  /** The replacement pass `p` emits for a match whose group 1 is `group`. */
  function Replacement(p: Pass, group: string): string {
    Open(p) + group + Close(p)
  }

  /** A character that is not a line terminator and that no pattern's marker
      begins with, other than `-` (which starts a list item only at a line start). */
  predicate Inert(c: char) {
    !IsLineTerminator(c) && c != '#' && c != '*' && c != '`'
  }

  predicate Plain(s: string) {
    forall k :: 0 <= k < |s| ==> Inert(s[k])
  }

  lemma PlainAppend(a: string, b: string)
    requires Plain(a) && Plain(b)
    ensures Plain(a + b)
  {
  }

  lemma PlainIsSingleLine(s: string)
    requires Plain(s)
    ensures NoTerminator(s)
  {
  }

  /** The replacement strings contain no line terminator and nothing a later pass reacts to. */
  lemma TemplatesPlain(p: Pass)
    ensures Plain(Open(p)) && Plain(Close(p)) && NoTerminator(Open(p)) && NoTerminator(Close(p))
  {
    OpenPlain(p);
    ClosePlain(p);
    PlainIsSingleLine(Open(p));
    PlainIsSingleLine(Close(p));
  }

  lemma OpenPlain(p: Pass)
    ensures Plain(Open(p))
  {
    match p
    case Heading3 => HeadingOpenPlain("<h3 ", "margin: 1rem ", "0 0.5rem 0;\">");
    case Heading2 => HeadingOpenPlain("<h2 ", "margin: 1.2rem ", "0 0.6rem 0;\">");
    case Bold =>
    case ListItem =>
    case InlineCode =>
  }

  lemma ClosePlain(p: Pass)
    ensures Plain(Close(p))
  {
  }

  lemma HeadingOpenPlain(tag: string, margin: string, rest: string)
    requires Plain(tag) && Plain(margin) && Plain(rest)
    ensures Plain(tag + HeadingColor + margin + rest)
  {
    assert Plain("style=\"color: ");
    assert Plain("var(--text-primary); ");
    PlainAppend("style=\"color: ", "var(--text-primary); ");
    PlainAppend(tag, HeadingColor);
    PlainAppend(tag + HeadingColor, margin);
    PlainAppend(tag + HeadingColor + margin, rest);
  }

  /** A matched group never spans a line terminator. */
  lemma GroupSingleLine(p: Pass, s: string, i: nat, m: Match)
    requires i <= |s| && MatchAt(p, s, i) == Some(m)
    ensures NoTerminator(m.group)
  {
    InnerSingleLine(s[i..m.end], Lead(p), m.group, Trail(p));
  }

  lemma InnerSingleLine(x: string, lead: string, g: string, trail: string)
    requires x == lead + g + trail && NoTerminator(x)
    ensures NoTerminator(g)
  {
    assert forall k :: 0 <= k < |g| ==> g[k] == x[|lead| + k];
  }

  lemma ReplacementSingleLine(p: Pass, s: string, i: nat, m: Match)
    requires i <= |s| && MatchAt(p, s, i) == Some(m)
    ensures NoTerminator(Replacement(p, m.group))
  {
    TemplatesPlain(p);
    GroupSingleLine(p, s, i, m);
  }

  lemma ReplacementKeepsLines(p: Pass, s: string, i: nat, m: Match)
    requires i <= |s| && MatchAt(p, s, i) == Some(m)
    ensures Terminators(Replacement(p, m.group)) == []
    ensures Terminators(s[i..]) == Terminators(s[m.end..])
    ensures |Replacement(p, m.group)| >= m.end - i
  {
    var r := Replacement(p, m.group);
    ReplacementSingleLine(p, s, i, m);
    TerminatorsEmpty(r);
    TerminatorsEmpty(s[i..m.end]);
    SliceSplit(s, i, m.end);
    TerminatorsAppend(s[i..m.end], s[m.end..]);
  }

  /** `s.replace(pattern, template)` for a global pattern, from index `i` on. */
  function Scan(p: Pass, s: string, i: nat): (r: string)
    requires i <= |s|
    ensures |r| >= |s| - i
    ensures Terminators(r) == Terminators(s[i..])
    decreases |s| - i
  {
    if i == |s| then []
    else
      match MatchAt(p, s, i)
      case Some(m) =>
        var rest := Scan(p, s, m.end);
        ReplacementKeepsLines(p, s, i, m);
        TerminatorsAppend(Replacement(p, m.group), rest);
        Replacement(p, m.group) + rest
      case None =>
        var rest := Scan(p, s, i + 1);
        TerminatorsAppend([s[i]], rest);
        TerminatorsAppend([s[i]], s[i + 1..]);
        assert s[i..] == [s[i]] + s[i + 1..];
        [s[i]] + rest
  }

  /** The passes `parseMarkdownBasic` chains, in order. */
  const Passes: seq<Pass> := [Heading3, Heading2, Bold, ListItem, InlineCode]

  /** `text.replace(...).replace(...)...` for the passes `ps`, in order. */
  function ApplyPasses(ps: seq<Pass>, text: string): (r: string)
    ensures Terminators(r) == Terminators(text)
    ensures |r| >= |text|
  {
    if ps == [] then text
    else
      assert text[0..] == text;
      ApplyPasses(ps[1..], Scan(ps[0], text, 0))
  }

  /** JavaScript's `!text` for a string field that may be `null`: absent or empty. */
  predicate Falsy(body: Option<string>) {
    body.None? || body.value == []
  }

  /** `parseMarkdownBasic(text)`. */
  function ParseMarkdownBasic(body: Option<string>): (r: string)
    ensures Falsy(body) ==> r == Placeholder
    ensures !Falsy(body) ==> Terminators(r) == Terminators(body.value)
    ensures !Falsy(body) ==> LineCount(r) == LineCount(body.value)
  {
    if Falsy(body) then Placeholder else ApplyPasses(Passes, body.value)
  }

  // ---------------------------------------------------------------------------
  // When a pass changes nothing

  /** `Scan` unfolded once. */
  lemma ScanStep(p: Pass, s: string, i: nat)
    requires i < |s|
    ensures MatchAt(p, s, i).Some? ==>
      Scan(p, s, i) == Replacement(p, MatchAt(p, s, i).value.group) + Scan(p, s, MatchAt(p, s, i).value.end)
    ensures MatchAt(p, s, i).None? ==> Scan(p, s, i) == [s[i]] + Scan(p, s, i + 1)
  {
  }

  /** A replacement is never the text it replaces: it is longer, or (for a list
      item, whose `- ` becomes `• `) differs in its first character. */
  lemma MatchChangesText(p: Pass, s: string, i: nat)
    requires i < |s| && MatchAt(p, s, i).Some?
    ensures Scan(p, s, i) != s[i..]
  {
    var m := MatchAt(p, s, i).value;
    ScanStep(p, s, i);
    if p.ListItem? {
      ListItemChangesText(s, i, m, Scan(p, s, m.end));
    } else {
      assert |Replacement(p, m.group)| > m.end - i;
    }
  }

  lemma ListItemChangesText(s: string, i: nat, m: Match, rest: string)
    requires i < |s| && MatchAt(ListItem, s, i) == Some(m)
    ensures Replacement(ListItem, m.group) + rest != s[i..]
  {
    assert (Replacement(ListItem, m.group) + rest)[0] == '•';
    assert s[i..][0] == s[i] == '-';
  }

  /** A global replacement leaves the text as it was exactly when its pattern
      matches nowhere. */
  lemma {:induction false} ScanIdentity(p: Pass, s: string, i: nat)
    requires i <= |s|
    ensures Scan(p, s, i) == s[i..] <==> forall j :: i <= j < |s| ==> !CanMatch(p, s, j)
    decreases |s| - i
  {
    if i < |s| {
      if MatchAt(p, s, i).Some? {
        MatchChangesText(p, s, i);
      } else {
        ScanIdentity(p, s, i + 1);
        ScanIdentityCopied(p, s, i);
      }
    }
  }

  /** The step of `ScanIdentity` where no match starts at `i`. */
  lemma ScanIdentityCopied(p: Pass, s: string, i: nat)
    requires i < |s| && MatchAt(p, s, i).None?
    requires Scan(p, s, i + 1) == s[i + 1..] <==> forall j :: i + 1 <= j < |s| ==> !CanMatch(p, s, j)
    ensures Scan(p, s, i) == s[i..] <==> forall j :: i <= j < |s| ==> !CanMatch(p, s, j)
  {
    ScanCopiedText(p, s, i);
    assert !CanMatch(p, s, i);
    NoMatchFromNext(p, s, i);
  }

  lemma ScanCopiedText(p: Pass, s: string, i: nat)
    requires i < |s| && MatchAt(p, s, i).None?
    ensures Scan(p, s, i) == s[i..] <==> Scan(p, s, i + 1) == s[i + 1..]
  {
    ScanStep(p, s, i);
    assert s[i..] == [s[i]] + s[i + 1..];
    ConsEqual(s[i], Scan(p, s, i + 1), s[i + 1..]);
  }

  lemma ConsEqual(c: char, x: string, y: string)
    ensures [c] + x == [c] + y <==> x == y
  {
    if [c] + x == [c] + y {
      assert x == ([c] + x)[1..];
    }
  }

  lemma NoMatchFromNext(p: Pass, s: string, i: nat)
    requires i < |s| && !CanMatch(p, s, i)
    ensures (forall j :: i <= j < |s| ==> !CanMatch(p, s, j)) <==> (forall j :: i + 1 <= j < |s| ==> !CanMatch(p, s, j))
  {
  }

  /** Pass `p`'s pattern matches nowhere in `s`. */
  ghost predicate Untouched(p: Pass, s: string) {
    forall j :: 0 <= j < |s| ==> !CanMatch(p, s, j)
  }

  lemma {:induction false} ApplyUntouched(ps: seq<Pass>, s: string)
    requires forall k :: 0 <= k < |ps| ==> Untouched(ps[k], s)
    ensures ApplyPasses(ps, s) == s
    decreases |ps|
  {
    if ps != [] {
      ScanIdentity(ps[0], s, 0);
      assert s[0..] == s;
      ApplyUntouched(ps[1..], s);
    }
  }

  /** Running `ps` and then `qs` is running their concatenation. */
  lemma {:induction false} ApplyPassesAppend(ps: seq<Pass>, qs: seq<Pass>, s: string)
    ensures ApplyPasses(ps + qs, s) == ApplyPasses(qs, ApplyPasses(ps, s))
    decreases |ps|
  {
    if ps != [] {
      assert (ps + qs)[1..] == ps[1..] + qs;
      ApplyPassesAppend(ps[1..], qs, Scan(ps[0], s, 0));
    } else {
      assert ps + qs == qs;
    }
  }

  /** No markup: no `#`, `*` or backtick anywhere, and no line that begins with `- `. */
  predicate NoMarkup(s: string) {
    && (forall k :: 0 <= k < |s| ==> s[k] != '#' && s[k] != '*' && s[k] != '`')
    && (forall j :: 0 <= j <= |s| && AtLineStart(s, j) ==> !StartsAt(s, j, "- "))
  }

  lemma LeadStartsMatch(p: Pass, s: string, j: nat)
    requires j <= |s|
    ensures CanMatch(p, s, j) ==> j < |s| && s[j] == Lead(p)[0]
  {
    if CanMatch(p, s, j) {
      assert StartsAt(s, j, Lead(p));
      assert s[j] == s[j..j + |Lead(p)|][0];
    }
  }

  lemma NoMarkupUntouched(p: Pass, s: string)
    requires NoMarkup(s)
    ensures Untouched(p, s)
  {
    forall j | 0 <= j < |s| ensures !CanMatch(p, s, j) {
      LeadStartsMatch(p, s, j);
    }
  }

  /** Text without markup characters and without `- ` list lines comes back unchanged. */
  lemma PlainTextUnchanged(text: string)
    requires text != [] && NoMarkup(text)
    ensures ParseMarkdownBasic(Some(text)) == text
  {
    forall k | 0 <= k < |Passes| ensures Untouched(Passes[k], text) {
      NoMarkupUntouched(Passes[k], text);
    }
    ApplyUntouched(Passes, text);
  }

  // ---------------------------------------------------------------------------
  // Single lines

  lemma LeadAbsentUntouched(p: Pass, s: string)
    requires forall k :: 0 <= k < |s| ==> s[k] != Lead(p)[0]
    ensures Untouched(p, s)
  {
    forall j | 0 <= j < |s| ensures !CanMatch(p, s, j) {
      LeadStartsMatch(p, s, j);
    }
  }

  /** On a single line the list pattern can only match at its first character. */
  lemma ListItemUntouchedLine(s: string)
    requires NoTerminator(s) && (s == [] || s[0] != '-')
    ensures Untouched(ListItem, s)
  {
    forall j | 0 <= j < |s| ensures !CanMatch(ListItem, s, j) {
      if 0 < j {
        assert !IsLineTerminator(s[j - 1]);
      }
    }
  }

  /** A plain line that does not start with `-` is left alone by every pass. */
  lemma PlainLineUntouched(p: Pass, s: string)
    requires Plain(s) && (s == [] || s[0] != '-')
    ensures Untouched(p, s)
  {
    if p.ListItem? {
      ListItemUntouchedLine(s);
    } else {
      LeadAbsentUntouched(p, s);
    }
  }

  /** On a string without line terminators every index has the input's end as its line end. */
  lemma SingleLineEnd(s: string, i: nat)
    requires NoTerminator(s) && i <= |s|
    ensures LineEnd(s, i) == |s|
  {
  }

  lemma ScanAtMatch(p: Pass, s: string, i: nat, m: Match)
    requires i < |s| && MatchAt(p, s, i) == Some(m)
    ensures Scan(p, s, i) == Replacement(p, m.group) + Scan(p, s, m.end)
  {
  }

  lemma ApplyOnePass(p: Pass, s: string)
    ensures ApplyPasses([p], s) == Scan(p, s, 0)
  {
  }

  /** A match that spans the whole input replaces all of it. */
  lemma ScanWholeMatch(p: Pass, s: string, g: string)
    requires s != [] && MatchAt(p, s, 0) == Some(Match(|s|, g))
    ensures Scan(p, s, 0) == Replacement(p, g)
  {
    ScanAtMatch(p, s, 0, Match(|s|, g));
    var rest := Scan(p, s, |s|);
    assert rest == [];
  }

  lemma WholeMatch(p: Pass, s: string, g: string)
    requires s != [] && MatchAt(p, s, 0) == Some(Match(|s|, g))
    ensures ApplyPasses([p], s) == Replacement(p, g)
  {
    ScanWholeMatch(p, s, g);
    ApplyOnePass(p, s);
  }

  /** When the passes before `p` find nothing, `p` replaces the whole line and
      the passes after it find nothing in the replacement, the result is that
      one replacement. */
  lemma OnlyOnePassActs(pre: seq<Pass>, p: Pass, post: seq<Pass>, s: string, g: string)
    requires Passes == pre + [p] + post && s != []
    requires forall k :: 0 <= k < |pre| ==> Untouched(pre[k], s)
    requires MatchAt(p, s, 0) == Some(Match(|s|, g))
    requires forall k :: 0 <= k < |post| ==> Untouched(post[k], Replacement(p, g))
    ensures ParseMarkdownBasic(Some(s)) == Replacement(p, g)
  {
    OnlyOneActs(Passes, pre, p, post, s, g);
  }

  lemma OnlyOneActs(ps: seq<Pass>, pre: seq<Pass>, p: Pass, post: seq<Pass>, s: string, g: string)
    requires ps == pre + [p] + post && s != []
    requires forall k :: 0 <= k < |pre| ==> Untouched(pre[k], s)
    requires MatchAt(p, s, 0) == Some(Match(|s|, g))
    requires forall k :: 0 <= k < |post| ==> Untouched(post[k], Replacement(p, g))
    ensures ApplyPasses(ps, s) == Replacement(p, g)
  {
    var r := Replacement(p, g);
    assert ApplyPasses(pre, s) == s by {
      ApplyUntouched(pre, s);
    }
    assert ApplyPasses([p], s) == r by {
      WholeMatch(p, s, g);
    }
    assert ApplyPasses(post, r) == r by {
      ApplyUntouched(post, r);
    }
    assert ApplyPasses(pre + [p], s) == r by {
      ApplyPassesAppend(pre, [p], s);
    }
    ApplyPassesAppend(pre + [p], post, s);
  }

  /** `### T` becomes an `<h3>` heading around T, which the `## ` pass does not touch again. */
  lemma Heading3Line(t: string)
    requires Plain(t)
    ensures ParseMarkdownBasic(Some("### " + t)) == H3Open + t + "</h3>"
  {
    var s := "### " + t;
    assert NoTerminator(s) by {
      assert forall k :: 4 <= k < |s| ==> s[k] == t[k - 4];
    }
    SingleLineEnd(s, 0);
    assert s[0..|s|] == s;
    var r := H3Open + t + "</h3>";
    TemplatesPlain(Heading3);
    PlainAppend(H3Open, t);
    PlainAppend(H3Open + t, "</h3>");
    assert r[0] == H3Open[0] == '<';
    forall p ensures Untouched(p, r) {
      PlainLineUntouched(p, r);
    }
    OnlyOnePassActs([], Heading3, [Heading2, Bold, ListItem, InlineCode], s, t);
  }

  /** `## T` becomes an `<h2>` heading around T. */
  lemma Heading2Line(t: string)
    requires Plain(t)
    ensures ParseMarkdownBasic(Some("## " + t)) == H2Open + t + "</h2>"
  {
    var s := "## " + t;
    assert NoTerminator(s) by {
      assert forall k :: 3 <= k < |s| ==> s[k] == t[k - 3];
    }
    forall j | 0 <= j < |s| ensures !CanMatch(Heading3, s, j) {
      if j + 4 <= |s| {
        assert s[j + 2] != '#' by {
          if j + 2 >= 3 {
            assert s[j + 2] == t[j - 1];
          }
        }
        assert s[j..j + 4][2] == s[j + 2];
      }
    }
    SingleLineEnd(s, 0);
    assert s[0..|s|] == s;
    var r := H2Open + t + "</h2>";
    TemplatesPlain(Heading2);
    PlainAppend(H2Open, t);
    PlainAppend(H2Open + t, "</h2>");
    assert r[0] == H2Open[0] == '<';
    forall p ensures Untouched(p, r) {
      PlainLineUntouched(p, r);
    }
    OnlyOnePassActs([Heading3], Heading2, [Bold, ListItem, InlineCode], s, t);
  }

  /** A line `- T` becomes the bullet `• T`. */
  lemma ListItemLine(t: string)
    requires Plain(t)
    ensures ParseMarkdownBasic(Some("- " + t)) == Bullet + t
  {
    var s := "- " + t;
    assert forall k :: 2 <= k < |s| ==> s[k] == t[k - 2];
    assert NoTerminator(s);
    LeadAbsentUntouched(Heading3, s);
    LeadAbsentUntouched(Heading2, s);
    LeadAbsentUntouched(Bold, s);
    SingleLineEnd(s, 0);
    assert s[0..|s|] == s;
    var r := Bullet + t;
    assert forall k :: 2 <= k < |r| ==> r[k] == t[k - 2];
    LeadAbsentUntouched(InlineCode, r);
    OnlyOnePassActs([Heading3, Heading2, Bold], ListItem, [InlineCode], s, t);
  }

  /** On the line `**T**` the bold pattern matches all of it, whatever `**` T contains. */
  lemma BoldWholeMatch(s: string, t: string)
    requires s == "**" + t + "**" && NoTerminator(s)
    ensures MatchAt(Bold, s, 0) == Some(Match(|s|, t))
  {
    SingleLineEnd(s, 0);
    assert StartsAt(s, |s| - 2, "**") by {
      assert s[|s| - 2..] == "**";
    }
    assert CanMatch(Bold, s, 0);
    var m := MatchAt(Bold, s, 0).value;
    assert m.end == |s|;
    assert s[0..|s|] == s;
  }

  /** Text in which only `*` of the markup characters may occur, and no line terminator. */
  predicate StarsOnly(s: string) {
    forall k :: 0 <= k < |s| ==> !IsLineTerminator(s[k]) && s[k] != '#' && s[k] != '`'
  }

  lemma PlainStarsOnly(s: string)
    requires Plain(s)
    ensures StarsOnly(s)
  {
  }

  lemma StarsOnlyAppend(a: string, b: string)
    requires StarsOnly(a) && StarsOnly(b)
    ensures StarsOnly(a + b)
  {
  }

  lemma StarsOnlyUntouched(p: Pass, s: string)
    requires StarsOnly(s) && (p.Heading3? || p.Heading2? || p.InlineCode?)
    ensures Untouched(p, s)
  {
    assert Lead(p)[0] == '#' || Lead(p)[0] == '`';
    LeadAbsentUntouched(p, s);
  }

  /** `**T**` becomes `<strong>T</strong>` even when T itself contains `**`:
      the greedy group runs from the line's first `**` to its last. */
  lemma BoldLine(t: string)
    requires StarsOnly(t)
    ensures ParseMarkdownBasic(Some("**" + t + "**")) == "<strong>" + t + "</strong>"
  {
    var s := "**" + t + "**";
    BoldLineBefore(t, s);
    BoldLineAfter(t, "<strong>" + t + "</strong>");
    OnlyOnePassActs([Heading3, Heading2], Bold, [ListItem, InlineCode], s, t);
  }

  /** On `**T**` the heading passes find nothing and the bold pass matches the whole line. */
  lemma BoldLineBefore(t: string, s: string)
    requires StarsOnly(t) && s == "**" + t + "**"
    ensures Untouched(Heading3, s) && Untouched(Heading2, s)
    ensures MatchAt(Bold, s, 0) == Some(Match(|s|, t))
  {
    StarsOnlyAppend("**", t);
    StarsOnlyAppend("**" + t, "**");
    StarsOnlyUntouched(Heading3, s);
    StarsOnlyUntouched(Heading2, s);
    BoldWholeMatch(s, t);
  }

  /** On `<strong>T</strong>` the list and code passes find nothing. */
  lemma BoldLineAfter(t: string, r: string)
    requires StarsOnly(t) && r == "<strong>" + t + "</strong>"
    ensures Untouched(ListItem, r) && Untouched(InlineCode, r)
  {
    TemplatesPlain(Bold);
    PlainStarsOnly(Open(Bold));
    PlainStarsOnly(Close(Bold));
    StarsOnlyAppend("<strong>", t);
    StarsOnlyAppend("<strong>" + t, "</strong>");
    assert r[0] == '<';
    ListItemUntouchedLine(r);
    StarsOnlyUntouched(InlineCode, r);
  }

  /** A line `` `T` `` becomes `<code>T</code>`. */
  lemma CodeLine(t: string)
    requires Plain(t)
    ensures ParseMarkdownBasic(Some("`" + t + "`")) == "<code>" + t + "</code>"
  {
    var s := "`" + t + "`";
    assert forall k :: 1 <= k < |s| - 1 ==> s[k] == t[k - 1];
    assert NoTerminator(s);
    LeadAbsentUntouched(Heading3, s);
    LeadAbsentUntouched(Heading2, s);
    LeadAbsentUntouched(Bold, s);
    ListItemUntouchedLine(s);
    CodeWholeMatch(s, t);
    OnlyOnePassActs([Heading3, Heading2, Bold, ListItem], InlineCode, [], s, t);
  }

  /** On the line `` `T` `` with no backtick in T the code pattern matches all of it. */
  lemma CodeWholeMatch(s: string, t: string)
    requires s == "`" + t + "`" && NoTerminator(s)
    requires forall k :: 1 <= k < |s| - 1 ==> s[k] != '`'
    ensures MatchAt(InlineCode, s, 0) == Some(Match(|s|, t))
  {
    SingleLineEnd(s, 0);
    assert CanMatch(InlineCode, s, 0) by {
      assert s[|s| - 1] == '`';
    }
    var m := MatchAt(InlineCode, s, 0).value;
    assert s[m.end - 1] == (s[0..m.end])[m.end - 1] == '`';
    assert m.end == |s|;
    assert s[0..|s|] == s;
  }
}
