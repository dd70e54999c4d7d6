/** The release records of the GitHub API and `createReleaseCard`, as a view
    model: what a card shows, not the HTML text it is written as. */
module Releases {
  import opened Wrappers
  import Markdown

  /** A file uploaded to a release. */
  datatype Asset = Asset(name: string, downloadUrl: string, size: nat)

  /** One element of the API's release list. `name` and `body` may be `null`. */
  datatype Release = Release(
    name: Option<string>,
    tagName: string,
    publishedAt: string,
    body: Option<string>,
    assets: seq<Asset>,
    zipballUrl: string,
    tarballUrl: string)

  /** `formatDate(iso)`: a Turkish long-form date, kept symbolic. */
  datatype DateText = LocalizedDate(iso: string)

  /** An asset button's tooltip, `(size / 1024 / 1024).toFixed(2)` MB, kept symbolic. */
  datatype SizeText = Mebibytes(bytes: nat)

  /** One entry of a card's download row. */
  datatype Download =
    | AssetButton(href: string, fileName: string, title: SizeText)
    | SourceZip(href: string)
    | SourceTarGz(href: string)

  /** What one release card shows. */
  datatype Card = Card(
    latestBadge: bool,
    displayName: string,
    tag: string,
    date: DateText,
    bodyHtml: string,
    downloads: seq<Download>)

  /** JavaScript truthiness of a string field that may be `null`. */
  predicate Truthy(s: Option<string>) {
    !Markdown.Falsy(s)
  }

  function Href(d: Download): string {
    match d
    case AssetButton(href, _, _) => href
    case SourceZip(href) => href
    case SourceTarGz(href) => href
  }

  /** `release.assets.map(asset => ...)`: one button per asset, in asset order. */
  function AssetButtons(assets: seq<Asset>): (ds: seq<Download>)
    ensures |ds| == |assets|
    ensures forall i :: 0 <= i < |assets| ==>
      ds[i] == AssetButton(assets[i].downloadUrl, assets[i].name, Mebibytes(assets[i].size))
  {
    if assets == [] then []
    else
      [AssetButton(assets[0].downloadUrl, assets[0].name, Mebibytes(assets[0].size))]
      + AssetButtons(assets[1..])
  }

  /** `createReleaseCard(release, isLatest)`. The asset row is used when its
      HTML is non-empty, which is when there is at least one asset. */
  function CreateReleaseCard(r: Release, isLatest: bool): (c: Card)
    ensures c.latestBadge <==> isLatest
    ensures c.tag == r.tagName
    ensures Truthy(r.name) ==> c.displayName == r.name.value
    ensures !Truthy(r.name) ==> c.displayName == r.tagName
    ensures c.date == LocalizedDate(r.publishedAt)
    ensures c.bodyHtml == Markdown.ParseMarkdownBasic(r.body)
    ensures |r.assets| > 0 ==> |c.downloads| == |r.assets|
    ensures forall i :: 0 <= i < |r.assets| ==>
      c.downloads[i] == AssetButton(r.assets[i].downloadUrl, r.assets[i].name, Mebibytes(r.assets[i].size))
    ensures |r.assets| == 0 ==> c.downloads == [SourceZip(r.zipballUrl), SourceTarGz(r.tarballUrl)]
  {
    var buttons := AssetButtons(r.assets);
    Card(
      isLatest,
      if Truthy(r.name) then r.name.value else r.tagName,
      r.tagName,
      LocalizedDate(r.publishedAt),
      Markdown.ParseMarkdownBasic(r.body),
      if buttons != [] then buttons else [SourceZip(r.zipballUrl), SourceTarGz(r.tarballUrl)])
  }

  /** Every link a release offers for download. */
  function Links(r: Release): set<string> {
    (set a | a in r.assets :: a.downloadUrl) + {r.zipballUrl, r.tarballUrl}
  }

  /** A card never links anywhere its release does not: every download entry is
      one of the release's asset URLs or one of its two source archives. */
  lemma DownloadsComeFromRelease(r: Release, isLatest: bool)
    ensures forall d :: d in CreateReleaseCard(r, isLatest).downloads ==> Href(d) in Links(r)
  {
    var c := CreateReleaseCard(r, isLatest);
    forall d | d in c.downloads ensures Href(d) in Links(r) {
      if |r.assets| > 0 {
        var i :| 0 <= i < |c.downloads| && c.downloads[i] == d;
        assert r.assets[i] in r.assets;
      }
    }
  }

  /** The download row holds one entry per asset, or the two source archives
      when there are none; it is never empty. */
  lemma DownloadCount(r: Release, isLatest: bool)
    ensures |CreateReleaseCard(r, isLatest).downloads| == if |r.assets| > 0 then |r.assets| else 2
    ensures |CreateReleaseCard(r, isLatest).downloads| > 0
  {
  }
}
