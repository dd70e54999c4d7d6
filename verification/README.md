# GitHub releases widget — a Dafny model

The widget (`app.js`) asks the GitHub REST API for one repository's
releases and shows them in a page's content container. The first release in the
list gets a card with a "Son Sürüm" badge. The rest are listed in a dropdown
("Önceki Sürümler / Archive"), and choosing one shows its card below the
dropdown. A release description is turned into HTML by `parseMarkdownBasic`,
which runs five global regular-expression replacements: `### ` headings,
`## ` headings, `**bold**`, `- ` list lines and `` `code` `` spans.

The model has eight modules:

- `Wrappers` holds `Option` and `Result`.
- `Lines` describes how a JavaScript regular expression sees line
  structure. `.` never matches one of the four ECMAScript line terminators.
  Under the `m` flag, `^` matches after each of them.
- `Markdown` models `parseMarkdownBasic`. A global `String.prototype.replace`
  is written as a scan: try the pattern at the current index; on a match,
  emit the replacement and go on after the match; otherwise copy one
  character. `MatchAt` states what each pattern matches:
  - the greedy `(.*)` of the headings and list items runs to the end of the line;
  - the greedy bold group closes at the line's last `**`;
  - the lazy code group closes at the next backtick.
- `MarkdownLines` gives an independent reference definition of the same
  five passes. It cuts the text into lines and rewrites each line by first
  and last occurrences of the markers, with no scanning. It then proves that
  the scanning model equals this reference, pass by pass and for the whole
  chain.
- `Releases` models the API's release record and `createReleaseCard` as a
  view model (`Card`). The model says what a card shows, not the HTML text it
  is written as.
- `Render` models `renderReleases` and the dropdown's change handler, acting
  on the content container (`Content`).
- `Fetch` models `fetchReleases` with the request's outcome as a parameter:
  which status gives which error message, and when the release list is shown.
- `Decimal` models how a status code is written into the error message.

The code does not HTML-escape the release name, the tag or the option text.
They are interpolated into the markup as they are (app.js:69-70 and
app.js:111). This model follows the code: a card's `displayName` and `tag` are
the record's strings unchanged.

## Model

| member | source | states |
|---|---|---|
| `Markdown.MatchAt` | app.js:145-149 | A pattern matches at an index exactly when its literal marker is there (for `- `, also only at a line start) and the rest of the match fits on the line. The match is the marker, group 1 and the closing marker, and contains no line terminator. Headings and list items run to the line's end. Bold closes at the line's last `**`. A code span's group contains no backtick. |
| `Markdown.Scan` | app.js:145-149 | A global replacement never shortens the text. It keeps the sequence of line terminators exactly as in the input. |
| `Markdown.ScanIdentity` | app.js:145-149 | A global replacement returns the text unchanged if and only if its pattern matches at no index. |
| `Markdown.ApplyPasses` | app.js:144-149 | The chained replacements keep the input's line terminators and never shorten it. |
| `Markdown.ApplyPassesAppend` | app.js:144-149 | Running a chain of passes and then another chain is the same as running the concatenated chain. |
| `Markdown.ParseMarkdownBasic` | app.js:141-150 | An absent or empty description gives "Açıklama belirtilmemiş.". Any other description keeps its line terminators and its number of lines. |
| `Markdown.PlainTextUnchanged` | app.js:141-150 | A non-empty description with no `#`, `*` or backtick, and no line starting with `- `, is returned exactly as it was. |
| `Markdown.Heading3Line` | app.js:145 | A line `### T` (T plain text) becomes the `<h3>` tag with its inline style, then T, then `</h3>`. The later `## ` pass does not touch it again. |
| `Markdown.Heading2Line` | app.js:146 | A line `## T` becomes the `<h2>` tag with its inline style, then T, then `</h2>`. |
| `Markdown.BoldLine` | app.js:147 | A line `**T**` becomes `<strong>T</strong>` even when T itself contains `**`, because the greedy group runs to the line's last `**`. |
| `Markdown.ListItemLine` | app.js:148 | A line `- T` becomes `• T`. |
| `Markdown.CodeLine` | app.js:149 | A line `` `T` `` becomes `<code>T</code>`. |
| `MarkdownLines.LineRun` | app.js:145-149 | On a single line, each pass's scan (and its table-driven run) produces exactly the line-wise reference rewriting:<br>- a heading wraps the rest of the line after the first marker;<br>- bold wraps the text between the first and the last `**`;<br>- `- ` becomes a bullet only at the line's start;<br>- backticks pair up left to right. |
| `MarkdownLines.ScanByLines` | app.js:145-149 | Each global replacement over the whole text equals rewriting every line on its own and keeping the line terminators in place. |
| `MarkdownLines.ApplyPassesByLines` | app.js:144-149 | Any chain of the passes equals the same passes, each applied line by line, in the same order. |
| `MarkdownLines.ParseByLines` | app.js:141-150 | `parseMarkdownBasic` gives the placeholder for a falsy description. Otherwise it gives the line-wise reference rewriting by the five passes in source order. |
| `Releases.AssetButtons` | app.js:48-53 | There is one download button per asset, in asset order. Each button carries the asset's download URL, its file name and its size in mebibytes. |
| `Releases.CreateReleaseCard` | app.js:47-82 | The card has:<br>- the badge exactly when the release is the latest;<br>- the name, or the tag when the name is absent or empty;<br>- the tag and the formatted publish date;<br>- the description through `parseMarkdownBasic`;<br>- the asset buttons, or the zip and tar.gz source links when there are no assets. |
| `Releases.DownloadsComeFromRelease` | app.js:48-62 | Every entry of a card's download row links to one of its release's asset URLs or one of its two source-archive URLs. |
| `Releases.DownloadCount` | app.js:78 | The download row is never empty. It has one entry per asset, or two entries when there are no assets. |
| `Render.ArchiveOptions` | app.js:111 | Dropdown option `i` has value `i` and shows the tag and date of the `i`-th older release. |
| `Render.RenderReleases` | app.js:84-118 | An empty list shows the notice "Henüz yayınlanmış bir sürüm bulunamadı." and nothing else. Otherwise the first release is the badged latest card. The archive exists exactly when there are older releases. It lists them all, in order, with an empty display slot. |
| `Render.Select` | app.js:127-130 | Choosing option `index` puts exactly `createReleaseCard(older[index])`, the unbadged card, into the display slot. The latest card, the archived list and the options are left as they were. |
| `Render.RenderShowsReleases` | app.js:84-118 | What `renderReleases` produces is a faithful view of the release list (the `ShowsReleases` invariant). |
| `Render.SelectShowsReleases` | app.js:127-130 | Any selection preserves the `ShowsReleases` invariant. The display slot only ever shows the plain card of an older release. |
| `Render.OneBadge` | app.js:66 | On any page reachable by rendering and selecting, the latest card has the badge and the archive card never has it. |
| `Render.LastSelectionWins` | app.js:130 | A later selection replaces an earlier one: selecting i and then j equals selecting only j. |
| `Render.SelectAfterRender` | app.js:111-130 | Right after rendering, option i can be chosen whenever release i + 1 exists. Choosing it shows that release's unbadged card. |
| `Fetch.StatusError` | app.js:24-26 | An ok status (200–299) throws nothing. 404 gives "Repository not found or has no releases.". Any other status gives "GitHub API Error: " followed by the status in decimal. |
| `Fetch.LoadPage` | app.js:20-40 | A network failure, a non-ok status or an unparsable body ends in the error panel, under the headline "Veriler alınırken bir hata oluştu.", with that error's message. An ok response with a release list ends in `renderReleases` of that list. |
| `Fetch.ReleasesOnlyOnSuccess` | app.js:20-40 | The error panel is shown if and only if the request failed, the status was not ok, or the body did not parse. |
| `Fetch.StatusErrorInjective` | app.js:24-26 | Two different failing statuses never produce the same error message. |
| `Fetch.ServerErrorMessage` | app.js:26 | Status 500 gives the error panel with "GitHub API Error: 500". |
| `Decimal.ParseShow` | app.js:26 | Reading back the decimal numeral of a status gives the status. |
| `Decimal.ShowInjective` | app.js:26 | Different numbers have different numerals. |

## Left out

- The DOM: `innerHTML`, `getElementById` and `addEventListener` are not modelled. The content container is a `Content` value, and the handler is the function `Render.Select`.
- Element ids: the model assumes `getElementById('version-select')` and `getElementById('older-release-display')` (app.js:123-124) find the archive's own elements. Descriptions pass raw HTML through, and the latest card comes first in the document. A latest description that contains an element with either id would take over the lookup. `Render.Select`'s promise that the latest card is unchanged relies on the ids being unique.
- `initializeUI` (app.js:14-18) and the `CONFIG` constants only set the page title and the repository link. They play no part in the logic.
- The network: `fetch` and `response.json()` are a parameter of `Fetch.LoadPage`. It is either a rejection with a message or a response with a status and a parse result.
- Malformed API data: the model takes the parsed body to be a list of complete release records. What the code does with other bodies is not modelled, and it varies:
  - A record without `assets` throws. For the latest release this happens inside `renderReleases`, and the error panel shows. For an older release it happens only when that release is chosen, inside the change handler (app.js:130 and app.js:48). The handler runs outside `fetchReleases`'s `try` (app.js:21-31), so the error is uncaught and the display slot stays as it was.
  - A record without `tag_name` or `published_at` does not throw. Its card shows the text "undefined" or "Invalid Date". A missing `name` or `body` is the modelled `None`.
  - A body such as `""` or `{"length":0}` passes the `releases.length === 0` test (app.js:85) and shows the no-releases notice.
- `formatDate`: `toLocaleDateString('tr-TR', …)` is kept symbolic as `LocalizedDate(iso)`, because locale tables are outside the program.
- The asset size tooltip: `(size / 1024 / 1024).toFixed(2)` is floating point. It is kept symbolic as `Mebibytes(bytes)`.
- `scrollIntoView` (app.js:133) only moves the viewport.
- `parseInt` of the option value: option values are the indices the dropdown itself wrote (app.js:111), and the placeholder option cannot be chosen. The model therefore takes the index as a number that names an existing option.
- Exact HTML text: whitespace, class names, icons and CSS in the template strings are not modelled. The view models keep what the markup shows.
- Character encoding: JavaScript strings are UTF-16 code units, while Dafny's `char` is a Unicode scalar value. Every character the five patterns and replacements mention is in the Basic Multilingual Plane, so the matching is the same.
- Markdown.ParseMarkdownBasic: its own contract states only the placeholder case and the preserved line structure. The full input–output relation is `MarkdownLines.ParseByLines`.
- Markdown.ApplyPasses: its own contract states only line terminators and length. What the chain computes is `MarkdownLines.ApplyPassesByLines`.
- Markdown.Scan: its own contract states only length and line terminators. What it computes is `MarkdownLines.ScanByLines` and `Markdown.ScanIdentity`.
- Releases.DownloadCount: it follows directly from `Releases.CreateReleaseCard`'s contract, as a summary of the row's size.
