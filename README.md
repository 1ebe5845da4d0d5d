# how_many_lines, modelled in Dafny

`how_many_lines` is a small directory line counter written in Rust (`src/main.rs`).
It builds two filename matchers from a YAML configuration. It walks the current
directory depth-first. Each accepted file goes to a `LineCounter` journal. At the
end, the journal sorts its per-file log by line count.

This project models those three parts and proves properties of them:

- `Matcher.dfy` models `Config::new`. The ignore list is joined with `|`, and the
  extension list becomes `[\S]+(\.e1|\.e2|...)$`, both exactly as the program does
  it. A `Config` holds the two pattern strings. Matching is defined only for these
  two literal-alternation shapes; no regex engine is modelled. `IgnoredIff` and
  `AcceptedIff` describe both matchers in terms of the configured entries,
  including the two degenerate cases:
  - an empty ignore list gives the empty pattern, which ignores every directory;
  - an empty extension list gives `[\S]+()$`, which accepts every name ending in a
    non-whitespace character.
- `LineCounting.dfy` models the `LineCounter` journal as a class with the fields
  `totalLine` and `perFileLog`:
  - `Observe` counts the file's lines with a loop that starts at 1 and adds one
    per `'\n'` character, and appends one record; `LineCount` and `Text.Split` tie
    that count to the number of `split('\n')` segments, which the program counts;
  - `Summary` stably sorts the log by count.
  The class invariant says that the total is the sum of the logged counts. The sort
  is specified as an insertion sort. It is proved sorted, a permutation, stable per
  count and total-preserving, and shown to be the only result with those
  properties (`StableSortUnique`).
- `Walker.dfy` models `traverse_directory` as a recursive method with a loop over
  an abstract directory tree (`Entry`); the loop body is the method `VisitEntry`,
  and the two call each other. It also models `main`'s driver (`Run`).
  `ObservedAreSelectedFiles` says exactly which files are counted, and in what
  order. It relates the walk to a separate enumeration of all regular files in
  depth-first order, filtered by "accepted, and no ignored directory on the way".
- `Text.dfy` holds the string helpers: split, join, occurrence counting and
  substrings. `Wrappers.dfy` holds `Option`.

Inputs that are I/O in the program are parameters here:
- the YAML lists are `seq<Option<string>>`, where None is a non-string YAML item;
- a directory's listing is a sequence of `Entry` values, in `read_dir` order;
- a file's text is an `Option<string>`, where None means `read_to_string` failed.

## Model

| member | source | states |
|---|---|---|
| `Text.Split` | src/main.rs:80 | `split(sep)` yields one more segment than the text has separators, and no segment contains the separator |
| `Text.JoinSplit` | src/main.rs:80 | the segments of a split, joined again with the separator, are exactly the original text |
| `Text.SplitJoin` | src/main.rs:43-48 | splitting a vertical-bar join of one or more entries that contain no vertical bar gives back exactly those entries, so the alternatives of the ignore pattern are the configured entries |
| `Text.Join` | src/main.rs:48 | no contract of its own; the vertical-bar join of the entries, characterised by `JoinSplit` and `SplitJoin` |
| `Text.SubstringAt` | src/main.rs:117 | an occurrence of `p` at any index of `s` makes the unanchored match succeed |
| `Text.SubstringHasIndex` | src/main.rs:117 | a successful unanchored match gives an index of `s` at which `p` occurs |
| `Matcher.StringItems` | src/main.rs:44-46 | the kept entries are exactly the YAML items that are strings, and there are no more of them than items |
| `Matcher.EscapedExtensions` | src/main.rs:53 | each extension `e` becomes the regex `\.e`, one per extension, in order |
| `Matcher.IgnorePattern` | src/main.rs:43-48 | no contract of its own; the ignore pattern, characterised by `IgnoredIff` |
| `Matcher.AcceptPattern` | src/main.rs:50-57 | no contract of its own; the accept pattern, characterised by `AcceptedIff` |
| `Matcher.UnescapeExtension` | src/main.rs:53 | the regex `\.e` of a literal extension stands for the text `.e` |
| `Matcher.IgnoredIff` | src/main.rs:43-48 | in any configuration whose ignore pattern is built from the ignore list, a directory basename is ignored iff the list has no string entries or some configured entry occurs in it as a substring (the match is unanchored) |
| `Matcher.AcceptedIff` | src/main.rs:50-57 | in any configuration whose accept pattern is built from the extension list, a file basename is accepted iff it ends with `.` + some configured extension and a non-whitespace character comes right before that dot; with no extensions, iff its last character is not whitespace |
| `Matcher.EmptyIgnoreListIgnoresAll` | src/main.rs:43-48 | with no string entries in the ignore list, every basename is ignored, whatever the entries themselves and the accept list are |
| `LineCounting.LineCount` | src/main.rs:79-82 | a file's line count is its number of `'\n'` characters plus one |
| `LineCounting.CountLines` | src/main.rs:79-82 | the counting loop returns the number of `split('\n')` segments, that is, the newlines plus one |
| `LineCounting.EmptyFileHasOneLine` | src/main.rs:79-82 | an empty file counts as one line |
| `LineCounting.TrailingNewline` | src/main.rs:79-82 | a trailing newline adds one line to the count |
| `LineCounting.RecordedAppend` | src/main.rs:83-84 | the records of two runs of `observe` calls, one after the other, are the first run's records followed by the second's |
| `LineCounting.RecordedPositive` | src/main.rs:79-84 | every record that `observe` calls append has at least one line |
| `LineCounting.SortByLinesFacts` | src/main.rs:90 | the sorted log is non-decreasing by count, a permutation of the log, keeps the order of records with equal counts, and has the same sum of counts |
| `LineCounting.StableSortUnique` | src/main.rs:90 | any arrangement that is non-decreasing by count and keeps each count's records in order equals the model's sort, so every stable sort by count gives this result |
| `LineCounting.SortKeepsPositive` | src/main.rs:90 | sorting keeps every record's count at least one |
| `Matcher.NewConfig` | src/main.rs:29-64 | no contract of its own; it builds the two patterns, which `AcceptPatternBody`, `IgnoredIff` and `AcceptedIff` characterise |
| `Matcher.IsIgnored` | src/main.rs:117 | no contract of its own; characterised by `IgnoredIff` |
| `Matcher.IsAccepted` | src/main.rs:119 | no contract of its own; characterised by `AcceptedIff` |
| `LineCounting.SortByLines` | src/main.rs:90 | no contract of its own; characterised by `SortByLinesFacts` and `StableSortUnique` |
| `LineCounting.LineCounter.constructor` | src/main.rs:68-72 | a new journal has total 0 and an empty log, and satisfies the invariant total == sum of logged counts |
| `LineCounting.LineCounter.Observe` | src/main.rs:77-87 | an unreadable file changes neither field; a readable one appends exactly one record (path, newlines + 1) at the end, leaves earlier records untouched, and adds that count to the total; the invariant is kept |
| `LineCounting.LineCounter.Summary` | src/main.rs:89-95 | the log becomes its stable sort by count (sorted, a permutation, equal counts in prior order); the total is unchanged; the invariant is kept |
| `Walker.JoinPath` | src/main.rs:114-118 | no contract of its own; the paths it builds are the ones `ObservedAreSelectedFiles` names |
| `Walker.Observed` | src/main.rs:110-126 | no contract of its own; the `observe` calls of a walk, characterised by `ObservedAreSelectedFiles` and tied to the method by `TraverseDirectory` |
| `Walker.ObservedEntry` | src/main.rs:113-123 | no contract of its own; the `observe` calls for one entry, characterised by `ObservedEntryIsSelected` |
| `Walker.VisitEntry` | src/main.rs:113-123 | the journal's log gains exactly the records of the `observe` calls for that one entry (a directory walked in full, an accepted file observed, anything else passed over); the invariant is kept |
| `Walker.TraverseDirectory` | src/main.rs:110-126 | the journal's log gains exactly the records of the walk's `observe` calls, in order, and its total gains their sum; needs every descended directory to be listable |
| `Walker.ObservedIsSelected` | src/main.rs:112-122 | below non-ignored directories, the walk's `observe` calls are exactly the accepted regular files under no ignored directory, each once, in depth-first listing order |
| `Walker.ObservedAreSelectedFiles` | src/main.rs:110-126 | from the root, `observe` is called exactly for the accepted regular files with no ignored directory between them and the root, in depth-first listing order; the root's own name is never tested |
| `Walker.EmptyIgnoreListStaysAtRoot` | src/main.rs:117 | with an empty ignore list, only the accepted files listed directly in the root are observed |
| `Walker.Run` | src/main.rs:136-140 | after walking `.` and summarizing, the log is the stable sort of the walk's records and the total is their sum |

## Left out

- YAML loading of `~/.howmany_conf.yaml`, the `HOME` lookup and the `expect`/`unwrap` panics on a missing file, bad YAML or a missing list are external I/O and library code (src/main.rs:32-41, 131-136). The two lists are parameters.
- The regex engine is not modelled. Entries must not contain the characters the regex syntax treats specially outside a character class: backslash, `.`, `+`, `*`, `?`, parentheses, the vertical bar, `[` (which opens a class), `{` (which starts a counted repetition), `^` and `$` (`AllLiteral`). The program inserts entries unescaped, so such an entry would change the pattern's meaning or make `Regex::new` panic (src/main.rs:61-62). Every other character, a lone `]` or `}` and `-`, `#`, `&`, `~` included, matches itself and is allowed.
- `\S` is modelled with ASCII whitespace (space, tab, LF, VT, FF, CR), not Unicode whitespace.
- `fs::read_dir`, `DirEntry::file_type` and `fs::read_to_string` are replaced by the `Entry` tree and optional file text. The `read_dir(..).unwrap()` panic on a directory that cannot be listed (src/main.rs:111) becomes a precondition: the root and every directory the walk descends into are listable (`Listable`).
- The non-UTF-8 path panics (src/main.rs:84, 115) are platform string handling and are not modelled. Paths are joined with `/`, as `Path::join` does for relative POSIX paths.
- The order of `read_dir` entries is platform-defined. The model takes it as given by the entry sequence.
- Printing is not modelled: the per-file and total lines of `summary` (src/main.rs:91-94), `println!` of the config (src/main.rs:137), and the unused `indent_print` (src/main.rs:99-106).
- `Walker.TraverseDirectory`: the `depth` argument is passed down and incremented as in the program, but nothing uses it.
- `LineCounting.LineCounter.Observe`: does not model `i32` wrap-around of `local_line` and `total_line`. Counts are mathematical integers.
- `LineCounting.LineCounter.Summary`: `sort_by` is a library merge sort. Its result is specified by an insertion sort, and `StableSortUnique` shows that every stable sort by count gives that same result.
