/** `renderReleases` and the archive dropdown's change handler: what the
    content container shows for a release list, and how choosing an archived
    version updates it. */
module Render {
  import opened Wrappers
  import opened Releases

  /** Shown instead of any card when the repository has no releases. */
  const NoReleasesText: string := "Henüz yayınlanmış bir sürüm bulunamadı."

  /** The fixed line of the error panel, above the error's own message. */
  const ErrorHeadline: string := "Veriler alınırken bir hata oluştu."

  /** One `<option>` of the archive dropdown: its value is the index into the
      archived releases, its text the tag and the formatted date. */
  datatype ArchiveOption = ArchiveOption(value: nat, tag: string, date: DateText)

  /** The archive section: the releases the dropdown's handler closes over, the
      options it lists, and the one slot where the chosen release's card shows. */
  datatype Archive = Archive(older: seq<Release>, options: seq<ArchiveOption>, display: Option<Card>)

  /** What the page's content container shows. */
  datatype Content =
    | NoReleasesNotice(text: string)
    | ReleaseList(latest: Card, archive: Option<Archive>)
    | ErrorPanel(headline: string, detail: string)

  /** `older.map((r, i) => <option value="i">...)`: option `i` selects `older[i]`. */
  function ArchiveOptions(older: seq<Release>): (opts: seq<ArchiveOption>)
    ensures |opts| == |older|
    ensures forall i :: 0 <= i < |older| ==>
      opts[i] == ArchiveOption(i, older[i].tagName, LocalizedDate(older[i].publishedAt))
  {
    if older == [] then []
    else
      var last := |older| - 1;
      ArchiveOptions(older[..last]) + [ArchiveOption(last, older[last].tagName, LocalizedDate(older[last].publishedAt))]
  }

  /** `renderReleases(releases)`: the first release is the latest, shown with its
      badge; the rest form the archive, which exists only when there are some. */
  function RenderReleases(releases: seq<Release>): (c: Content)
    ensures c == NoReleasesNotice(NoReleasesText) <==> |releases| == 0
    ensures |releases| > 0 ==> c.ReleaseList?
    ensures !c.ErrorPanel?
    ensures c.ReleaseList? ==> c.latest == CreateReleaseCard(releases[0], true)
    ensures c.ReleaseList? ==> (c.archive.Some? <==> |releases| > 1)
    ensures c.ReleaseList? && c.archive.Some? ==>
      && c.archive.value.older == releases[1..]
      && c.archive.value.display == None
      && |c.archive.value.options| == |releases| - 1
      && forall i :: 0 <= i < |releases| - 1 ==>
           c.archive.value.options[i].value == i && c.archive.value.options[i].tag == releases[i + 1].tagName
  {
    if |releases| == 0 then NoReleasesNotice(NoReleasesText)
    else
      var older := releases[1..];
      ReleaseList(
        CreateReleaseCard(releases[0], true),
        if |older| > 0 then Some(Archive(older, ArchiveOptions(older), None)) else None)
  }

  /** The dropdown exists and `index` is one of its option values. */
  predicate CanSelect(c: Content, index: nat) {
    c.ReleaseList? && c.archive.Some? && index < |c.archive.value.older|
  }

  /** The change handler: render `older[index]` as an ordinary (unbadged) card
      into the display slot, replacing whatever was there. */
  function Select(c: Content, index: nat): (c': Content)
    requires CanSelect(c, index)
    ensures c'.ReleaseList? && c'.latest == c.latest
    ensures c'.archive.Some?
    ensures c'.archive.value.older == c.archive.value.older
    ensures c'.archive.value.options == c.archive.value.options
    ensures c'.archive.value.display.Some?
    ensures !c'.archive.value.display.value.latestBadge
    ensures c'.archive.value.display.value.tag == c.archive.value.older[index].tagName
    ensures c'.archive.value.display == Some(CreateReleaseCard(c.archive.value.older[index], false))
  {
    var a := c.archive.value;
    ReleaseList(c.latest, Some(a.(display := Some(CreateReleaseCard(a.older[index], false)))))
  }

  /** The page is the one `renderReleases(releases)` produced, after any number
      of selections: the badged latest card of `releases[0]`, the archive of
      the rest, and in the display slot nothing or the plain card of one
      archived release. */
  ghost predicate ShowsReleases(c: Content, releases: seq<Release>) {
    if |releases| == 0 then c == NoReleasesNotice(NoReleasesText)
    else
      && c.ReleaseList?
      && c.latest == CreateReleaseCard(releases[0], true)
      && (c.archive.Some? <==> |releases| > 1)
      && (c.archive.Some? ==>
            && c.archive.value.older == releases[1..]
            && c.archive.value.options == ArchiveOptions(releases[1..])
            && (c.archive.value.display.Some? ==>
                  exists i :: 0 < i < |releases|
                    && c.archive.value.display.value == CreateReleaseCard(releases[i], false)))
  }

  lemma RenderShowsReleases(releases: seq<Release>)
    ensures ShowsReleases(RenderReleases(releases), releases)
  {
  }

  /** Selecting keeps the page a rendering of the same release list. */
  lemma SelectShowsReleases(c: Content, releases: seq<Release>, index: nat)
    requires ShowsReleases(c, releases) && CanSelect(c, index)
    ensures ShowsReleases(Select(c, index), releases)
  {
    var c' := Select(c, index);
    assert c'.archive.value.display.value == CreateReleaseCard(releases[index + 1], false);
  }

  /** Exactly one card carries the badge: the latest one, never the archive card. */
  lemma OneBadge(c: Content, releases: seq<Release>)
    requires ShowsReleases(c, releases) && c.ReleaseList?
    ensures c.latest.latestBadge
    ensures c.archive.Some? && c.archive.value.display.Some? ==> !c.archive.value.display.value.latestBadge
  {
  }

  /** The display slot holds one card: a later selection replaces an earlier one. */
  lemma LastSelectionWins(c: Content, i: nat, j: nat)
    requires CanSelect(c, i) && CanSelect(c, j)
    ensures CanSelect(Select(c, i), j)
    ensures Select(Select(c, i), j) == Select(c, j)
  {
  }

  /** Choosing option `i` right after rendering shows the card of
      `releases[i + 1]`, unbadged, and leaves the latest card as rendered. */
  lemma SelectAfterRender(releases: seq<Release>, i: nat)
    requires i + 1 < |releases|
    ensures CanSelect(RenderReleases(releases), i)
    ensures Select(RenderReleases(releases), i).archive.value.display
         == Some(CreateReleaseCard(releases[i + 1], false))
    ensures Select(RenderReleases(releases), i).latest == CreateReleaseCard(releases[0], true)
  {
  }
}
