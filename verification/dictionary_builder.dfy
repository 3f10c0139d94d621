/**
  The pure parts of the offline dictionary builder (`DictionaryBuilder`):
  each line of the input table is `code<whitespace>word`; the code is
  normalised so that it ends in a tone mark or a space (the first tone),
  and the word is added as a candidate of the trie node at that code.
 */
module DictionaryBuilder {
  import opened Common
  import opened Trie

  /** `TONE_CHARS`: the keys of the second to fifth tones. */
  const ToneChars: set<char> := {'6', '3', '4', '7'}

  /**
    `normalizeCode(code)`: a non-empty code that does not end in a tone
    char gets one space appended; otherwise the code is kept.
   */
  function NormalizeCode(code: string): (r: string)
    ensures |code| <= |r| <= |code| + 1 && r[..|code|] == code
    ensures r == code <==> code == [] || code[|code| - 1] in ToneChars
    ensures r != [] ==> r[|r| - 1] in ToneChars || r[|r| - 1] == ' '
  {
    if code != [] && code[|code| - 1] !in ToneChars then code + " " else code
  }

  /** Normalising is not idempotent: a code ending in a space gets a second one. */
  lemma NormalizeTwice(code: string)
    requires code != [] && code[|code| - 1] !in ToneChars
    ensures NormalizeCode(NormalizeCode(code)) == code + "  "
  {
  }

  // ---------------------------------------------------------------------
  // Reading a line.

  /**
    Kotlin's `Char.isWhitespace()`: the JVM whitespace chars together with
    every space separator (non-breaking ones included).
   */
  predicate IsWhitespace(c: char) {
    || ('\t' <= c <= '\r') || ('\U{1C}' <= c <= '\U{1F}') || c == ' '
    || c == '\U{A0}' || c == '\U{1680}' || ('\U{2000}' <= c <= '\U{200A}')
    || c == '\U{2028}' || c == '\U{2029}' || c == '\U{202F}' || c == '\U{205F}' || c == '\U{3000}'
  }

  /** `\s` of a Java regular expression: ASCII whitespace only. */
  predicate IsRegexSpace(c: char) {
    c == ' ' || ('\t' <= c <= '\r')
  }

  lemma RegexSpaceIsWhitespace(c: char)
    ensures IsRegexSpace(c) ==> IsWhitespace(c)
  {
  }

  /** `isBlank()`. */
  predicate IsBlank(s: string) {
    forall i :: 0 <= i < |s| ==> IsWhitespace(s[i])
  }

  function TrimStart(s: string): (r: string)
    ensures |r| <= |s| && r == s[|s| - |r|..]
    ensures r == [] || !IsWhitespace(r[0])
    ensures r == [] <==> IsBlank(s)
  {
    if s != [] && IsWhitespace(s[0]) then
      var r := TrimStart(s[1..]);
      assert IsBlank(s[1..]) ==> IsBlank(s) by {
        if IsBlank(s[1..]) {
          forall i | 0 <= i < |s| ensures IsWhitespace(s[i]) {
            if i > 0 {
              assert s[i] == s[1..][i - 1];
            }
          }
        }
      }
      r
    else
      assert s != [] ==> !IsBlank(s);
      s
  }

  function TrimEnd(s: string): (r: string)
    ensures |r| <= |s| && r == s[..|r|]
    ensures r == [] || !IsWhitespace(r[|r| - 1])
    ensures s != [] && !IsWhitespace(s[0]) ==> r != [] && r[0] == s[0]
  {
    if s != [] && IsWhitespace(s[|s| - 1]) then TrimEnd(s[..|s| - 1]) else s
  }

  /** `trim()`: drops leading and trailing whitespace; only a blank string trims to empty. */
  function Trim(s: string): (r: string)
    ensures r == [] <==> IsBlank(s)
    ensures r != [] ==> !IsWhitespace(r[0]) && !IsWhitespace(r[|r| - 1])
    ensures |r| <= |s|
    ensures s != [] && !IsWhitespace(s[0]) && !IsWhitespace(s[|s| - 1]) ==> r == s
  {
    TrimEnd(TrimStart(s))
  }

  /** Index of the first `\s` char, or `|t|`. */
  function FirstSpace(t: string): (i: nat)
    ensures i <= |t| && (i < |t| ==> IsRegexSpace(t[i]))
    ensures forall j :: 0 <= j < i ==> !IsRegexSpace(t[j])
  {
    if t == [] || IsRegexSpace(t[0]) then 0 else 1 + FirstSpace(t[1..])
  }

  /** The end of the run of `\s` chars that starts at `i`. */
  function RunEnd(t: string, i: nat): (j: nat)
    requires i <= |t|
    ensures i <= j <= |t| && (j < |t| ==> !IsRegexSpace(t[j]))
    ensures forall k :: i <= k < j ==> IsRegexSpace(t[k])
    decreases |t| - i
  {
    if i < |t| && IsRegexSpace(t[i]) then RunEnd(t, i + 1) else i
  }

  /**
    `split("\\s+".toRegex(), 2)` on a trimmed line followed by the
    `parts.size != 2` test: the text before the first whitespace run and
    the text after it, or nothing when there is no whitespace.
   */
  function SplitCodeWord(t: string): (r: Option<(string, string)>)
    ensures r.None? <==> forall j :: 0 <= j < |t| ==> !IsRegexSpace(t[j])
    ensures r.Some? ==>
      var (code, word) := r.value;
      && (forall j :: 0 <= j < |code| ==> !IsRegexSpace(code[j]))
      && |code| + |word| < |t| && t[..|code|] == code && t[|t| - |word|..] == word
      && (forall k :: |code| <= k < |t| - |word| ==> IsRegexSpace(t[k]))
      && (word == [] || !IsRegexSpace(word[0]))
  {
    var i := FirstSpace(t);
    if i == |t| then None
    else
      var j := RunEnd(t, i);
      Some((t[..i], t[j..]))
  }

  /**
    One line of the table: blank lines and lines starting with `#` are
    skipped; other lines are trimmed and split at the first whitespace
    run, and kept only when that gives two parts.
   */
  function ParseDictLine(line: string): (r: Option<(string, string)>)
    ensures IsBlank(line) || (line != [] && line[0] == '#') ==> r == None
    ensures r.Some? ==> r.value.0 != [] && r.value.1 != []
    ensures r.Some? ==> forall j :: 0 <= j < |r.value.0| ==> !IsRegexSpace(r.value.0[j])
  {
    if IsBlank(line) || (line != [] && line[0] == '#') then None
    else
      var t := Trim(line);
      var r := SplitCodeWord(t);
      assert r.Some? ==> r.value.0 != [] && r.value.1 != [] by {
        if r.Some? {
          RegexSpaceIsWhitespace(t[0]);
          RegexSpaceIsWhitespace(t[|t| - 1]);
        }
      }
      r
  }

  /** A line `code word` with a space-free code and a trimmed word reads back as that pair. */
  lemma DictLineRoundTrip(code: string, word: string)
    requires code != [] && code[0] != '#' && word != []
    requires forall j :: 0 <= j < |code| ==> !IsWhitespace(code[j])
    requires !IsWhitespace(word[0]) && !IsWhitespace(word[|word| - 1])
    ensures ParseDictLine(code + " " + word) == Some((code, word))
  {
    var line := code + " " + word;
    assert line[0] == code[0] && line[|line| - 1] == word[|word| - 1];
    assert !IsBlank(line);
    assert Trim(line) == line;
    SplitAtSpace(code, word);
  }

  lemma SplitAtSpace(code: string, word: string)
    requires word != [] && !IsWhitespace(word[0])
    requires forall j :: 0 <= j < |code| ==> !IsWhitespace(code[j])
    ensures SplitCodeWord(code + " " + word) == Some((code, word))
  {
    var line := code + " " + word;
    forall j | 0 <= j < |code| ensures !IsRegexSpace(line[j]) {
      RegexSpaceIsWhitespace(code[j]);
      assert line[j] == code[j];
    }
    FirstSpaceAt(line, |code|);
    RegexSpaceIsWhitespace(word[0]);
    assert line[|code| + 1] == word[0];
    assert RunEnd(line, |code|) == |code| + 1 by {
      assert RunEnd(line, |code|) == RunEnd(line, |code| + 1);
    }
    assert line[..|code|] == code && line[|code| + 1..] == word;
  }

  lemma FirstSpaceAt(t: string, k: nat)
    requires k < |t| && IsRegexSpace(t[k]) && forall j :: 0 <= j < k ==> !IsRegexSpace(t[j])
    ensures FirstSpace(t) == k
  {
  }

  /** What the table loop keeps for a line: the normalised code and the word. */
  function EntryOf(line: string): (r: Option<(string, string)>)
    ensures r.Some? ==> (r.value.0 != [] &&
      (r.value.0[|r.value.0| - 1] in ToneChars || r.value.0[|r.value.0| - 1] == ' '))
    ensures r.Some? <==> ParseDictLine(line).Some?
  {
    match ParseDictLine(line)
    case None => None
    case Some((code, word)) => Some((NormalizeCode(code), word))
  }

  // ---------------------------------------------------------------------
  // Building the tree.

  /**
    `addWordToTree(root, path, word)`: create the path child by child, then
    add the word as a candidate of the last node. Afterwards the node at
    the path exists and (for a non-empty word) holds the word.
   */
  function AddWordToTree(n: Node, path: string, word: string): (r: Node)
    requires Valid(n)
    ensures Valid(r) && r.key == n.key && r.path == n.path
    ensures Lookup(r, path).Some?
    ensures word != "" ==> word in Lookup(r, path).value.candidates
    ensures path != [] ==> r.candidates == n.candidates
    decreases path
  {
    if path == [] then AddCandidate(n, word)
    else
      var m := AddChild(n, path[0]);
      ChildIndexFound(m, path[0]);
      var i := ChildIndex(m.children, path[0]);
      assert Valid(m.children[i]) && m.children[i].path == m.path + [path[0]];
      var c := AddWordToTree(m.children[i], path[1..], word);
      ReplaceFound(m, i, c);
      var r := ReplaceChild(m, i, c);
      LookupCons(r, path);
      r
  }

  /** Putting a well-formed node back in place of the child with its key keeps the tree well formed and finds it. */
  lemma ReplaceFound(m: Node, i: nat, c: Node)
    requires Valid(m) && i < |m.children| && ChildIndex(m.children, c.key) == i
    requires Valid(c) && c.path == m.children[i].path
    ensures Valid(ReplaceChild(m, i, c))
    ensures GetChildNode(ReplaceChild(m, i, c), c.key) == Some(c)
  {
    var r := ReplaceChild(m, i, c);
    assert ChildKeys(r) == ChildKeys(m);
    ChildIndexSameKeys(r.children, m.children, c.key);
  }

  /** Adding a word keeps every node and every candidate that was already there. */
  lemma {:induction false} AddWordKeeps(n: Node, path: string, word: string, p: string, w: string)
    requires Valid(n) && Lookup(n, p).Some? && w in Lookup(n, p).value.candidates
    ensures Lookup(AddWordToTree(n, path, word), p).Some?
    ensures w in Lookup(AddWordToTree(n, path, word), p).value.candidates
    decreases p
  {
    var r := AddWordToTree(n, path, word);
    if p != [] && path != [] {
      var m := AddChild(n, path[0]);
      ChildIndexFound(m, path[0]);
      var i := ChildIndex(m.children, path[0]);
      var c := AddWordToTree(m.children[i], path[1..], word);
      assert r == ReplaceChild(m, i, c);
      LookupCons(n, p);
      LookupCons(r, p);
      var old_c := GetChildNode(n, p[0]).value;
      if p[0] == path[0] {
        assert m == n && old_c == n.children[i];
        ValidChild(n, i);
        ReplaceFound(m, i, c);
        AddWordKeeps(old_c, path[1..], word, p[1..], w);
      } else {
        AddChildKeepsIndex(n, path[0], p[0]);
        ReplaceOther(m, i, c, p[0]);
        assert GetChildNode(m, p[0]) == GetChildNode(n, p[0]);
      }
    } else if p != [] {
      assert r.children == n.children;
      LookupSameChildren(n, r, p);
    }
  }

  lemma ValidChild(n: Node, i: nat)
    requires Valid(n) && i < |n.children|
    ensures Valid(n.children[i]) && n.children[i].path == n.path + [n.children[i].key]
  {
  }

  /** Replacing child `i` by a node with the same key leaves the lookup of every other key alone. */
  lemma ReplaceOther(m: Node, i: nat, c: Node, d: char)
    requires i < |m.children| && c.key == m.children[i].key && ChildIndex(m.children, d) != i
    ensures GetChildNode(ReplaceChild(m, i, c), d) == GetChildNode(m, d)
  {
    var r := ReplaceChild(m, i, c);
    assert ChildKeys(r) == ChildKeys(m);
    ChildIndexSameKeys(r.children, m.children, d);
  }

  lemma LookupSameChildren(a: Node, b: Node, p: seq<char>)
    requires a.children == b.children && p != []
    ensures Lookup(a, p) == Lookup(b, p)
  {
    assert ChildKeys(a) == ChildKeys(b);
  }

  lemma AddChildKeepsIndex(n: Node, c: char, d: char)
    requires d in ChildKeys(n)
    ensures var m := AddChild(n, c);
      ChildIndex(m.children, d) == ChildIndex(n.children, d) &&
      m.children[ChildIndex(n.children, d)] == n.children[ChildIndex(n.children, d)]
  {
    ChildIndexFound(n, d);
    if c !in ChildKeys(n) {
      ChildIndexPrefix(n.children, [NewChild(n.path, c)], d);
    }
  }

  lemma {:induction false} ChildIndexPrefix(a: seq<Node>, b: seq<Node>, d: char)
    requires ChildIndex(a, d) < |a|
    ensures ChildIndex(a + b, d) == ChildIndex(a, d)
  {
    if a[0].key != d {
      assert (a + b)[1..] == a[1..] + b;
      ChildIndexPrefix(a[1..], b, d);
    }
  }

  /** The table loop of `buildDictionaryTree`: every kept line is added in order. */
  function AddEntries(n: Node, entries: seq<(string, string)>): (r: Node)
    requires Valid(n)
    ensures Valid(r)
    decreases |entries|
  {
    if entries == [] then n
    else AddEntries(AddWordToTree(n, entries[0].0, entries[0].1), entries[1..])
  }

  /** After the loop every entry's word sits at its path. */
  lemma {:induction false} AddEntriesComplete(n: Node, entries: seq<(string, string)>, k: nat)
    requires Valid(n) && k < |entries| && entries[k].1 != ""
    ensures Lookup(AddEntries(n, entries), entries[k].0).Some?
    ensures entries[k].1 in Lookup(AddEntries(n, entries), entries[k].0).value.candidates
    decreases |entries|
  {
    var n' := AddWordToTree(n, entries[0].0, entries[0].1);
    assert AddEntries(n, entries) == AddEntries(n', entries[1..]);
    if k == 0 {
      AddEntriesKeeps(n', entries[1..], entries[0].0, entries[0].1);
    } else {
      assert entries[1..][k - 1] == entries[k];
      AddEntriesComplete(n', entries[1..], k - 1);
    }
  }

  lemma {:induction false} AddEntriesKeeps(n: Node, entries: seq<(string, string)>, p: string, w: string)
    requires Valid(n) && Lookup(n, p).Some? && w in Lookup(n, p).value.candidates
    ensures Lookup(AddEntries(n, entries), p).Some?
    ensures w in Lookup(AddEntries(n, entries), p).value.candidates
    decreases |entries|
  {
    if entries != [] {
      AddWordKeeps(n, entries[0].0, entries[0].1, p, w);
      AddEntriesKeeps(AddWordToTree(n, entries[0].0, entries[0].1), entries[1..], p, w);
    }
  }

  /** The kept lines of a table, in order, as (normalised code, word). */
  function Entries(lines: seq<string>): (r: seq<(string, string)>)
    ensures |r| <= |lines|
    ensures forall k :: 0 <= k < |r| ==> r[k].1 != ""
  {
    if lines == [] then []
    else
      var rest := Entries(lines[1..]);
      match EntryOf(lines[0])
      case None => rest
      case Some(e) =>
        assert ParseDictLine(lines[0]).Some?;
        [e] + rest
  }

  /** `buildDictionaryTree` without the file reading: every kept line's word ends up at its normalised code. */
  lemma BuildDictionaryComplete(lines: seq<string>, k: nat)
    requires k < |Entries(lines)|
    ensures var e := Entries(lines)[k];
      var t := AddEntries(NewRoot(), Entries(lines));
      Lookup(t, e.0).Some? && e.1 in Lookup(t, e.0).value.candidates
  {
    AddEntriesComplete(NewRoot(), Entries(lines), k);
  }
}
