/**
 * The two filename matchers of `Config::new` (src/main.rs:43-63).
 *
 * The configuration's `ignore` and `accept` lists are turned into regex
 * source text exactly as the program does it: the ignore entries joined with
 * `|`, and the extensions each prefixed with `\.`, joined with `|` and
 * wrapped as `[\S]+(...)$`. A `Config` holds those two pattern strings.
 *
 * No regex engine is modelled. The entries are required to be free of regex
 * metacharacters, and matching is defined only for the two shapes built
 * here: an unanchored alternation of literals, and `[\S]+(alternation)$`.
 * The lemmas IgnoredIff and AcceptedIff then describe both matchers in terms
 * of the configured entries alone.
 */
module Matcher {
  import opened Wrappers
  import opened Text

  /** The two compiled patterns: directory basenames to skip, file basenames to count. */
  datatype Config = Config(ignores: string, accept: string)

  /**
   * The YAML list items that are strings, in order. Items of another YAML
   * type (numbers, maps, ...) read as None and are dropped.
   */
  function StringItems(items: seq<Option<string>>): (r: seq<string>)
    ensures |r| <= |items|
    ensures forall s :: s in r <==> Some(s) in items
  {
    if items == [] then []
    else match items[0]
      case Some(s) => [s] + StringItems(items[1..])
      case None => StringItems(items[1..])
  }

  /**
   * The characters the regex syntax treats specially outside a character class;
   * a lone `]` or `}` stands for itself.
   */
  predicate IsMeta(c: char) {
    c in {'\\', '.', '+', '*', '?', '(', ')', '|', '[', '{', '^', '$'}
  }

  /** A configured entry that, inserted unescaped into a pattern, stands for itself. */
  predicate IsLiteral(e: string) {
    forall k :: 0 <= k < |e| ==> !IsMeta(e[k])
  }

  predicate AllLiteral(items: seq<Option<string>>) {
    forall k :: 0 <= k < |items| && items[k].Some? ==> IsLiteral(items[k].value)
  }

  lemma {:induction false} StringItemsLiteral(items: seq<Option<string>>)
    requires AllLiteral(items)
    ensures forall k :: 0 <= k < |StringItems(items)| ==> IsLiteral(StringItems(items)[k])
  {
    if items != [] {
      StringItemsLiteral(items[1..]);
    }
  }

  /** Regex source for the ignore list: the entries joined with `|`. */
  function IgnorePattern(ignoreItems: seq<Option<string>>): string {
    Join(StringItems(ignoreItems), '|')
  }

  /** Each extension as the regex `\.ext`. */
  function EscapedExtensions(exts: seq<string>): (r: seq<string>)
    ensures |r| == |exts|
    ensures forall k :: 0 <= k < |exts| ==> r[k] == "\\." + exts[k]
  {
    if exts == [] then [] else ["\\." + exts[0]] + EscapedExtensions(exts[1..])
  }

  const AcceptHead: string := "[\\S]+("
  const AcceptTail: string := ")$"

  /** Regex source for the accept list: `[\S]+(\.e1|\.e2|...)$`. */
  function AcceptPattern(acceptItems: seq<Option<string>>): string {
    AcceptHead + Join(EscapedExtensions(StringItems(acceptItems)), '|') + AcceptTail
  }

  /** `Config::new`, minus reading and parsing the YAML file. */
  function NewConfig(ignoreItems: seq<Option<string>>, acceptItems: seq<Option<string>>): Config
    requires AllLiteral(ignoreItems) && AllLiteral(acceptItems)
  {
    Config(IgnorePattern(ignoreItems), AcceptPattern(acceptItems))
  }

  /** The literal text a piece of regex stands for, reading `\x` as `x`. */
  function Unescape(a: string): string {
    if |a| >= 2 && a[0] == '\\' then [a[1]] + Unescape(a[2..])
    else if a == [] then []
    else [a[0]] + Unescape(a[1..])
  }

  /** `lit` ends `name`, and a non-whitespace character comes right before it. */
  predicate NonSpaceThen(lit: string, name: string) {
    |lit| < |name| && IsSuffix(lit, name) && !IsSpace(name[|name| - |lit| - 1])
  }

  /** `Regex::is_match` for an alternation of literals: some alternative occurs anywhere. */
  predicate MatchesAlternation(pattern: string, name: string) {
    exists alt :: alt in Split(pattern, '|') && IsSubstring(Unescape(alt), name)
  }

  /** `Regex::is_match` for `[\S]+(alternation)$`: some alternative ends the name after a non-space. */
  predicate MatchesSuffixAlternation(pattern: string, name: string) {
    |AcceptHead| + |AcceptTail| <= |pattern| && IsPrefix(AcceptHead, pattern) && IsSuffix(AcceptTail, pattern) &&
    SomeAlternativeEnds(pattern[|AcceptHead|..|pattern| - |AcceptTail|], name)
  }

  /** Some alternative of `alternation` ends `name` after a non-space. */
  predicate SomeAlternativeEnds(alternation: string, name: string) {
    exists alt :: alt in Split(alternation, '|') && NonSpaceThen(Unescape(alt), name)
  }

  /** The test on directory basenames (src/main.rs:117). */
  predicate IsIgnored(cfg: Config, name: string) {
    MatchesAlternation(cfg.ignores, name)
  }

  /** The test on file basenames (src/main.rs:119). */
  predicate IsAccepted(cfg: Config, name: string) {
    MatchesSuffixAlternation(cfg.accept, name)
  }

  // ---------------------------------------------------------------------------
  // The matchers described by the configured entries

  /** `name` has the extension `ext` after at least one non-whitespace character. */
  predicate HasExtension(name: string, ext: string) {
    |ext| + 2 <= |name| && name[|name| - |ext| - 1..] == "." + ext && !IsSpace(name[|name| - |ext| - 2])
  }

  /** Text that splitting at `|` leaves whole and unescaping leaves as it is. */
  predicate PlainEntry(e: string) {
    '|' !in e && '\\' !in e
  }

  /** A literal entry holds neither a vertical bar nor a backslash. */
  lemma LiteralChars(e: string)
    requires IsLiteral(e)
    ensures PlainEntry(e)
  {
    forall k | 0 <= k < |e| ensures e[k] != '|' && e[k] != '\\' {
      assert !IsMeta(e[k]);
    }
  }

  lemma {:induction false} UnescapeLiteral(e: string)
    requires '\\' !in e
    ensures Unescape(e) == e
  {
    if e != [] {
      UnescapeLiteral(e[1..]);
      assert [e[0]] + e[1..] == e;
    }
  }

  lemma UnescapeExtension(e: string)
    requires '\\' !in e
    ensures Unescape("\\." + e) == "." + e
  {
    var a := "\\." + e;
    assert a[2..] == e;
    UnescapeLiteral(e);
  }

  /** The alternative `\.e` of an extension matches exactly the names with extension `e`. */
  lemma ExtensionAlternative(e: string, name: string)
    requires '\\' !in e
    ensures NonSpaceThen(Unescape("\\." + e), name) <==> HasExtension(name, e)
  {
    UnescapeExtension(e);
  }

  /**
   * A directory is ignored iff some configured entry occurs in its basename;
   * an empty ignore list makes the pattern empty, which matches every name.
   */
  lemma IgnoredIff(ignoreItems: seq<Option<string>>, cfg: Config, name: string)
    requires AllLiteral(ignoreItems) && cfg.ignores == IgnorePattern(ignoreItems)
    ensures var entries := StringItems(ignoreItems);
      IsIgnored(cfg, name) <==>
      (entries == [] || exists e :: e in entries && IsSubstring(e, name))
  {
    var entries := StringItems(ignoreItems);
    var pattern := Join(entries, '|');
    if entries == [] {
      assert Split(pattern, '|') == [""];
      assert IsSubstring(Unescape(""), name);
    } else {
      StringItemsLiteral(ignoreItems);
      forall k | 0 <= k < |entries| ensures '|' !in entries[k] && Unescape(entries[k]) == entries[k] {
        assert IsLiteral(entries[k]);
        LiteralChars(entries[k]);
        UnescapeLiteral(entries[k]);
      }
      SplitJoin(entries, '|');
    }
  }

  /** The accept pattern is the head, the alternation of escaped extensions, and the tail. */
  lemma AcceptPatternBody(acceptItems: seq<Option<string>>)
    ensures var pattern := AcceptPattern(acceptItems);
      |AcceptHead| + |AcceptTail| <= |pattern| && IsPrefix(AcceptHead, pattern) && IsSuffix(AcceptTail, pattern) &&
      pattern[|AcceptHead|..|pattern| - |AcceptTail|] == Join(EscapedExtensions(StringItems(acceptItems)), '|')
  {
  }

  /**
   * A file is accepted iff its basename has one of the configured extensions
   * after at least one non-whitespace character; an empty extension list
   * leaves `[\S]+()$`, which accepts every name ending in a non-whitespace
   * character.
   */
  lemma AcceptedIff(acceptItems: seq<Option<string>>, cfg: Config, name: string)
    requires AllLiteral(acceptItems) && cfg.accept == AcceptPattern(acceptItems)
    ensures var exts := StringItems(acceptItems);
      IsAccepted(cfg, name) <==>
      if exts == [] then |name| >= 1 && !IsSpace(name[|name| - 1])
      else exists e :: e in exts && HasExtension(name, e)
  {
    AcceptPatternIff(acceptItems, name);
  }

  /** AcceptedIff, stated on the pattern string itself. */
  lemma AcceptPatternIff(acceptItems: seq<Option<string>>, name: string)
    requires AllLiteral(acceptItems)
    ensures var exts := StringItems(acceptItems);
      MatchesSuffixAlternation(AcceptPattern(acceptItems), name) <==>
      if exts == [] then |name| >= 1 && !IsSpace(name[|name| - 1])
      else exists e :: e in exts && HasExtension(name, e)
  {
    var exts := StringItems(acceptItems);
    AcceptPatternBody(acceptItems);
    StringItemsLiteral(acceptItems);
    forall k | 0 <= k < |exts| ensures PlainEntry(exts[k]) {
      LiteralChars(exts[k]);
    }
    ExtensionAlternatives(exts, name);
  }

  /** The alternation of the escaped extensions, between the head and the tail of the accept pattern. */
  lemma ExtensionAlternatives(exts: seq<string>, name: string)
    requires forall k :: 0 <= k < |exts| ==> PlainEntry(exts[k])
    ensures SomeAlternativeEnds(Join(EscapedExtensions(exts), '|'), name) <==>
      if exts == [] then |name| >= 1 && !IsSpace(name[|name| - 1])
      else exists e :: e in exts && HasExtension(name, e)
  {
    if exts == [] {
      EmptyAlternation(name);
    } else {
      SomeExtensionAlternative(exts, name);
    }
  }

  /** The empty alternation `()` ends every name whose last character is not whitespace. */
  lemma EmptyAlternation(name: string)
    ensures SomeAlternativeEnds("", name) <==> |name| >= 1 && !IsSpace(name[|name| - 1])
  {
    assert Split("", '|') == [""];
    assert Unescape("") == "";
    if |name| >= 1 && !IsSpace(name[|name| - 1]) {
      assert IsSuffix("", name);
      assert NonSpaceThen(Unescape(""), name);
    }
  }

  /** Splitting the accept alternation at its vertical bars gives back the escaped extensions. */
  lemma EscapedAlternatives(exts: seq<string>)
    requires exts != []
    requires forall k :: 0 <= k < |exts| ==> PlainEntry(exts[k])
    ensures Split(Join(EscapedExtensions(exts), '|'), '|') == EscapedExtensions(exts)
  {
    var alts := EscapedExtensions(exts);
    forall k | 0 <= k < |alts| ensures '|' !in alts[k] {
      EscapedHasNoBar(exts[k]);
    }
    SplitJoin(alts, '|');
  }

  lemma EscapedHasNoBar(e: string)
    requires PlainEntry(e)
    ensures '|' !in "\\." + e
  {
  }

  /** With at least one extension, the alternation ends a name iff the name has one of them. */
  lemma SomeExtensionAlternative(exts: seq<string>, name: string)
    requires exts != []
    requires forall k :: 0 <= k < |exts| ==> PlainEntry(exts[k])
    ensures SomeAlternativeEnds(Join(EscapedExtensions(exts), '|'), name) <==> exists e :: e in exts && HasExtension(name, e)
  {
    EscapedAlternatives(exts);
    EscapedEndIff(EscapedExtensions(exts), exts, name);
  }

  /** Some alternative `\.e` ends the name iff the name has some extension `e`. */
  lemma EscapedEndIff(alts: seq<string>, exts: seq<string>, name: string)
    requires |alts| == |exts|
    requires forall k :: 0 <= k < |exts| ==> alts[k] == "\\." + exts[k] && PlainEntry(exts[k])
    ensures (exists alt :: alt in alts && NonSpaceThen(Unescape(alt), name)) <==> exists e :: e in exts && HasExtension(name, e)
  {
    forall k | 0 <= k < |exts|
      ensures NonSpaceThen(Unescape(alts[k]), name) <==> HasExtension(name, exts[k])
    {
      ExtensionAlternative(exts[k], name);
    }
    if alt :| alt in alts && NonSpaceThen(Unescape(alt), name) {
      var k :| 0 <= k < |alts| && alts[k] == alt;
      assert exts[k] in exts && HasExtension(name, exts[k]);
    }
    if e :| e in exts && HasExtension(name, e) {
      var k :| 0 <= k < |exts| && exts[k] == e;
      assert alts[k] in alts && NonSpaceThen(Unescape(alts[k]), name);
    }
  }

  /** With no ignore entries every directory basename is ignored. */
  lemma EmptyIgnoreListIgnoresAll(ignoreItems: seq<Option<string>>, cfg: Config, name: string)
    requires cfg.ignores == IgnorePattern(ignoreItems)
    requires StringItems(ignoreItems) == []
    ensures IsIgnored(cfg, name)
  {
    assert Split(cfg.ignores, '|') == [""];
    assert IsSubstring(Unescape(""), name);
  }
}
