# SayMyScope scope filter in Dafny

SayMyScope reads a list of subdomains or URLs and a list of out-of-scope
entries. It writes back the items that are still in scope and reports why each
removed item was removed. This project models the filtering engine of
`saymyscope.py` and proves what it guarantees:

- **Wildcard matching** (`matches_wildcard`, module `Glob`). Patterns are
  matched the way `fnmatch.fnmatchcase` matches them: `*` is any run of
  characters, `?` is one character, and `[...]` / `[!...]` are bracket
  classes with ranges. Matching is anchored at both ends. The matcher is
  proved equal to an independent "cut the name into one piece per token"
  meaning. The scan returns the first pattern, in list order, that matches.
- **Subdomain mode** (`filter_subdomains`, module `SubdomainFilter`).
  - `*`-free entries are exact names and are tried first. `*`-containing
    entries are wildcards and are tried next.
  - Every subdomain ends up in exactly one place: the in-scope set, or one
    removal record `[subdomain, reason, pattern]`.
- **URL mode** (`filter_urls`, module `UrlFilter`).
  - The entries are sorted into four buckets: exact URL, URL wildcard, exact
    domain and domain wildcard. An entry is URL-level when it starts with
    `http://` or `https://`.
  - Each URL goes through the precedence chain. The lower-cased URL is
    checked against the URL entries. Its hostname is checked against the
    domain entries after that.
  - Removals are counted per host. The reason and pattern stored for a host
    come from the first removal seen for that host.
  - URLs without a hostname are dropped silently.
- **Files as text** (module `LineFiles`).
  - `load_file` turns file contents into the set of stripped, non-blank
    lines.
  - `save_to_file` writes the items in sorted order, one per line.
  - Loading what was saved gives back the saved set.

Supporting modules:

- `Text` has Python's `strip`, `lower` and `startswith` for ASCII text.
- `StringOrder` has Python's string order and `sorted`, plus the proof that
  a set has only one sorted arrangement.
- `Seqs` and `Wrappers` hold small generic helpers.

Python sets are iterated in an order the program does not control. The model
takes every collection as a sequence, so "first match" and "first removal of
a host" have a definite meaning. Properties that do not depend on the order
are proved for every order:

- `InputOrderIrrelevant`, `PatternOrderIrrelevant` and
  `EntryOrderIrrelevant` cover the filters.
- `MatchesWildcardOrderIrrelevant` and `RenderIgnoresOrder` cover the
  matcher and the output file.

`urlparse(url).hostname` is a library call. It enters the model as a
parameter `hostOf`. A result of `None` or `""` means the URL has no host.

A side result is `UrlFilter.UpperCaseExactEntryNeverMatches`. The URL is
lower-cased before comparison, but the exact URL entries are compared as
written. So an exact URL entry that contains an upper-case letter can never
remove anything.

## Model

| member | source | states |
|---|---|---|
| Glob.MatchesWildcard | saymyscope.py:26-31 | The result is None exactly when no pattern of the list matches the item. Otherwise it is a pattern of the list that matches, and it is the first such pattern in list order. |
| Glob.GlobMatchMeansSplit | saymyscope.py:29 | The matcher accepts a name exactly when the name can be cut into one piece per pattern token. A `*` piece is any run, a `?` piece is one character, a class piece is one character the class admits, and a literal piece is that character. |
| Glob.PlainMatchesOnlyItself | saymyscope.py:29 | A pattern with no `*`, `?` or `[` matches exactly the one string equal to it. |
| Glob.StarThenPlain | saymyscope.py:29 | `*` followed by plain text matches exactly the names that end with that text, including the text alone. |
| Glob.PlainThenStar | saymyscope.py:89 | Plain text followed by `*` matches exactly the names that start with that text, which is how a URL wildcard entry such as a path prefix plus `*` behaves. |
| Glob.WildcardExamples | saymyscope.py:29 | `*.example.com` matches `api.example.com`. It does not match `example.com` or `notexample.com`. |
| Glob.ClassRanges | saymyscope.py:29 | On a one-character name, `[lo-hi]` matches exactly the characters from `lo` to `hi`, and nothing when the ends are reversed. `[!lo-hi]` matches exactly the others. In `[lo-]` the trailing `-` is a member beside `lo`. |
| Glob.MatchesWildcardOrderIrrelevant | saymyscope.py:26-31 | Whether some pattern matches depends only on the set of patterns, not on their order or on repeats. |
| SubdomainFilter.WildcardEntries | saymyscope.py:36 | The wildcard list holds exactly the out-of-scope entries that contain `*`. |
| SubdomainFilter.Decide | saymyscope.py:41-49 | A subdomain is kept exactly when it is not a `*`-free entry and no `*` entry matches it. "exact match" is given exactly to a `*`-free entry, with the subdomain as pattern, even when a wildcard also matches. "wildcard match" carries a `*` entry that matches the subdomain. |
| SubdomainFilter.FilterSubdomains | saymyscope.py:33-51 | The in-scope set is exactly the inputs the reference meaning keeps. Every record names an input that is removed and not kept, with a justified reason and pattern. Every removed input has a record. |
| SubdomainFilter.OneRecordPerRemoval | saymyscope.py:183-192 | On a set of subdomains each removed one has exactly one record. Kept plus removed equals the input count, as the summary prints it. |
| SubdomainFilter.Idempotent | saymyscope.py:33-51 | Filtering the in-scope output again with the same entries removes nothing and returns the same set. |
| SubdomainFilter.InputOrderIrrelevant | saymyscope.py:41-49 | Any two orders of the same input give the same in-scope set and the same bag of removal records. |
| SubdomainFilter.PatternOrderIrrelevant | saymyscope.py:35-36 | Entry lists with the same members give the same in-scope set. They also remove the same subdomains in the same order for the same reasons; only the reported wildcard pattern may differ. |
| SubdomainFilter.StarFreeEntryIsLiteral | saymyscope.py:42-44 | A record whose pattern has no `*` is an exact match of the subdomain itself. A `*`-free entry `a?c` does not remove `abc`, although the glob `a?c` matches `abc`. |
| SubdomainFilter.WildcardScenario | saymyscope.py:45-49 | With the single entry `*` + suffix, two subdomains ending in the suffix get "wildcard match" records in input order, and a third subdomain that does not end in it is the whole in-scope set. |
| UrlFilter.UrlEntryByPrefix | saymyscope.py:62 | Any entry that starts with `http://` or `https://` is URL-level. The test is case-sensitive, so `HTTP://…` is a domain entry, and so is any entry that does not start with `http`. |
| UrlFilter.Classify | saymyscope.py:61-71 | Each bucket holds exactly the entries with its URL-prefix and `*` status, so the buckets are disjoint and together hold every entry. Their sizes add up to the number of entries. |
| UrlFilter.DecideUrl | saymyscope.py:77-109 | A URL is kept exactly when no URL entry matches its lower-cased text and no domain entry matches its host. A domain reason is given only when no URL entry matches. An exact-URL removal stores the lower-cased URL and an exact-domain removal stores the host. Each wildcard removal carries a matching entry of the right kind. |
| UrlFilter.FilterUrls | saymyscope.py:53-111 | The in-scope set is exactly the original input URLs that have a host and are in scope. The dictionary has a key for exactly the hosts of removed URLs. Its keys are listed once each, in insertion order: a host listed earlier had its first removal earlier in the input. Each count is the number of removed URLs with that host, and is positive. Each reason and pattern is the verdict on the first removed URL with that host. |
| UrlFilter.Conservation | saymyscope.py:178-192 | On a set of URLs, the summed counts (the total the summary prints), the in-scope count and the number of URLs without a host add up to the input count. |
| UrlFilter.TotalCountsRemovals | saymyscope.py:180 | The printed total, the counts summed over the hosts, is the number of removed URLs, repeats included, and not the number of hosts. |
| UrlFilter.Idempotent | saymyscope.py:53-111 | Filtering the in-scope URLs again with the same entries keeps them all and leaves the dictionary empty. |
| UrlFilter.EntryOrderIrrelevant | saymyscope.py:56-71 | Entry lists with the same members give the same in-scope set, the same hosts in the same order and the same counts. |
| UrlFilter.UpperCaseExactEntryNeverMatches | saymyscope.py:83-88 | An exact URL entry with an upper-case ASCII letter is never reported as a match. |
| UrlFilter.UrlScenario | saymyscope.py:89-109 | With the single URL entry prefix plus `*`, a URL whose lower-cased text starts with the prefix is removed as "wildcard URL match" and counted once under its host, with that entry as pattern. A second URL outside the prefix is the whole in-scope set. |
| Text.Strip | saymyscope.py:11 | The result has no whitespace at either end, and it is the original with only whitespace removed from its ends. A string already stripped is returned unchanged. |
| Text.StripPadded | saymyscope.py:11 | Whitespace on both sides of a non-empty stripped text is removed completely, and the text itself is untouched. |
| Text.Lower | saymyscope.py:83 | The result has the input's length and no upper-case ASCII letter. Each upper-case letter becomes its lower-case letter, and every other character is kept. |
| StringOrder.Sort | saymyscope.py:117 | The result is in ascending order under Python's string comparison and is a permutation of the input. |
| StringOrder.SortIgnoresOrder | saymyscope.py:117 | Two iteration orders of the same set sort to the same sequence, with no repeats. |
| LineFiles.Lines | saymyscope.py:10 | Reading a text line by line gives at least one piece, and no piece holds a line break. A text without a line break is read as that one line. |
| LineFiles.LinesAfterBreak | saymyscope.py:10 | A break-free prefix followed by `\n` or `\r` is the first line, and the lines of the rest follow it. With `Lines` on break-free text, this fixes the lines of every text. |
| LineFiles.Collect | saymyscope.py:10-13 | Every collected item is non-empty and stripped. Every non-blank line contributes its stripped text. Every item comes from some line. |
| LineFiles.LoadItems | saymyscope.py:5-24 | An item is loaded exactly when it is non-empty and is the stripped text of some line. Every item is stripped and free of line breaks. |
| LineFiles.CollectCons | saymyscope.py:10-13 | Lines are taken one at a time. The first adds its stripped text unless that is empty, and the rest add their items. |
| LineFiles.LoadScenario | saymyscope.py:5-13 | A file holding a padded line ended by `\r\n`, a blank line and a last line ended by `\n` loads as exactly the two stripped items. |
| LineFiles.LinesOfJoin | saymyscope.py:117-118 | Reading back lines written one per line gives those lines, plus the empty piece after the final newline. |
| LineFiles.RenderLines | saymyscope.py:113-118 | The lines of the file `Render` produces are the items in ascending order, each ended by a newline. For a set each item appears once. |
| LineFiles.RoundTrip | saymyscope.py:113-118 | Saving stripped, non-empty, break-free items and loading the file again gives back exactly the set of those items. |
| LineFiles.RenderIgnoresOrder | saymyscope.py:117 | The output file depends only on the set of items, not on its iteration order. |

## Left out

- `main`, argument parsing and the summary printing (saymyscope.py:150-195) are not modelled. Only their arithmetic is stated, by `OneRecordPerRemoval` and `Conservation`.
- The console reports `print_subdomain_removal_info` and `print_url_removal_info` are formatting only.
- File I/O is not modelled: opening files, the UTF-8 to latin-1 fallback, the missing-file error with `exit(1)`, and write errors. `LoadItems` takes the decoded text and `Render` returns the text to write.
- `urlparse(url).hostname` is the parameter `hostOf`. Exceptions `urlparse` may raise and its lower-casing of hostnames are outside the model.
- Glob.GlobMatch: `fnmatch.fnmatch` first applies `os.path.normcase`. The model matches case-sensitively, as on POSIX systems; Windows case and slash folding is not modelled.
- Glob.GlobMatch: one bracket-class corner of `fnmatch.translate` is not modelled. A class that starts with a reversed range followed by `!`, such as `[z-a!x]`, loses the empty range and becomes a negated class in Python. The model keeps it as a plain class.
- Text.Strip: Python's `str.strip` also removes Unicode whitespace. The model strips the ASCII whitespace that `str.isspace` accepts: space, tab, line feed, vertical tab, form feed, carriage return and 0x1C to 0x1F.
- Text.Lower: only ASCII letters are lower-cased; Unicode case mapping is not modelled.
- LineFiles.Lines: line breaks are split at every `\n` and `\r`, as universal newlines do. A `\r\n` gives an extra empty piece, which `load_file` drops like any blank line.
- Python's set iteration order is not modelled. Inputs are sequences, and order-independent results are proved for every order.
