# Team-project post classifiers

The collector gathers blog posts about university team projects and files each
one under two keyword classifications before storing it:

- `categorizeContent(title, description)` gives a main category, always `팀플`,
  and a sub-category. Four rules are tried in a fixed order, and the first whose
  keywords occur decides the sub-category: `무임승차형` (free rider), `주도형`
  (leader), `플래너형` (planner) or `협력형` (cooperator). When no rule matches,
  the sub-category is `기타` (other).
- `analyzeType(title, description)` is a multi-label classifier. It walks four
  independent keyword groups in declaration order and appends a
  `{type, confidence}` entry for every group that matches: `무임승차형`/85,
  `과도헌신형` (over-committed)/75, `플래너형`/70 and `갈등형` (conflict)/80.
  When nothing matched, it returns the single entry `기타`/50.

Both classifiers read one text: the title and the description joined by a
single space and lower-cased. A keyword is looked up with a plain substring
test.

The project has two modules:

- `Text` (`text.dfy`) holds the substring test. `Contains` is the ghost meaning
  of `includes`: some occurrence exists. `Includes` is an executable search
  proved against it. The module also holds ASCII lower-casing and a lemma that
  lowering neither creates nor destroys a match for a needle without ASCII
  letters.
- `Collector` (`collector.dfy`) holds the keyword tables, both classifiers and
  their properties. `categorizeContent` is a function whose contract
  characterises every sub-category. It is also proved equal to a generic
  first-match evaluation of its rule table. `analyzeType` is a method that
  appends to a list step by step, as the source does. It is proved equal to
  `Analysis`, a table-driven reference, and the properties of the classifier
  are proved as lemmas about `Analysis`.

## Model

| member | source | states |
|---|---|---|
| `Text.Includes` | collector.js:20-23 | `text.includes(needle)` is true exactly when `needle` occurs somewhere in `text`; an empty needle is found everywhere |
| `Text.Lower` | collector.js:19 | lower-casing keeps the length, leaves every character other than `A`-`Z` unchanged, and maps `A`-`Z` to `a`-`z` |
| `Text.LoweringKeepsNonLetterMatches` | collector.js:19 | for a needle without ASCII letters (every keyword here), the lower-cased text contains it exactly when the original text does |
| `Collector.IncludesAny` | collector.js:20-23 | the left-to-right chain of `includes` calls joined by `or` is true exactly when some keyword of the list occurs |
| `Collector.JoinedTextSeesBothFields` | collector.js:19 | a keyword occurring in the title or in the description also occurs in the joined, lower-cased text |
| `Collector.CategorizeContent` | collector.js:18-25 | the main category is always `팀플`; the sub-category is `무임승차형` exactly when a free-rider keyword occurs; it is `주도형`, `플래너형` or `협력형` exactly when that rule's keywords occur and no earlier rule's do; it is `기타` exactly when no keyword of the four rules occurs |
| `Collector.FirstMatch` | collector.js:20-24 | the reference reading of an ordered rule list: the result is the sub-category of a matching rule with no matching rule before it, or the fallback when no rule matches |
| `Collector.CategorizeIsFirstMatch` | collector.js:20-24 | `categorizeContent` gives the same sub-category as the first-match reading of its four-rule table with fallback `기타` |
| `Collector.FreeRiderWordInEitherField` | collector.js:19-20 | first match wins: `무임승차` or `프리라이더` in the title or in the description gives `무임승차형`, whatever later keywords occur too |
| `Collector.MatchesSound` | collector.js:30-34 | every entry collected from a group table comes from a table group whose keywords occur, and there are at most as many entries as groups |
| `Collector.MatchesComplete` | collector.js:30-34 | every table group whose keywords occur contributes its entry |
| `Collector.MatchesInOrder` | collector.js:30-34 | a table listed in declaration order yields its entries in declaration order |
| `Collector.FallbackIsNotMatched` | collector.js:35 | no group contributes the fallback entry `기타`/50 |
| `Collector.AnalysisBounds` | collector.js:30-35 | the list has between 1 and 4 entries; every entry is one of the five fixed type/confidence pairs; confidences lie in [50, 85], and only `무임승차형` and `갈등형` reach 80 |
| `Collector.AnalysisMembership` | collector.js:31-34 | each group's entry, with its fixed confidence, is in the list exactly when one of the group's keywords occurs in the joined text |
| `Collector.AnalysisOrder` | collector.js:30-34 | entries appear in declaration order (`무임승차형`, `과도헌신형`, `플래너형`, `갈등형`), so no type label appears twice |
| `Collector.AnalysisFallback` | collector.js:35 | the list is exactly `[기타/50]` when no group matches; when one does, `기타` appears nowhere |
| `Collector.AnalyzeType` | collector.js:28-36 | the list built by the four conditional appends and the empty-list fallback equals `Analysis` of the joined text |
| `Collector.KeywordSpansBothFields` | collector.js:29-31 | neither the title `팀원이 안` nor the description `함` contains `안 함`, yet their joined text does, so the post is labelled `무임승차형`/85 |
| `Collector.KeywordMatchesInsideWords` | collector.js:31 | keywords match with no word boundaries: `편안함` (comfortable) contains `안함`, so the post is labelled `무임승차형`/85 |

## Left out

- Firebase set-up and credentials read from the environment (collector.js:1-12): configuration and calls into a foreign library.
- `searchNaverBlog` (collector.js:39-53): an HTTP request whose errors are swallowed into an empty list. This is network I/O.
- `collectAndSave` (collector.js:56 onward): the loop over search terms and results that calls both classifiers and writes to Firestore. This is I/O orchestration. Its markup stripping of the title and description happens after both classifiers have run, and is left out with the rest of the function.
- The `KEYWORDS` search-term list (collector.js:15) only feeds the search request and makes no decision.
- Text.Lower: `toLowerCase` is modelled on the ASCII letters only, not with full Unicode case mapping. Every keyword is Hangul or a space, which have no case, and `Text.LoweringKeepsNonLetterMatches` shows that lowering then cannot change a match. So the classifications would be the same under full Unicode lowering for text whose only cased letters are ASCII. Text with non-ASCII cased letters is lowered differently by the model, but such letters can never form part of a keyword match.
