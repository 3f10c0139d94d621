/**
  The pure parts of the offline trigram builder (`TrigramBuilder`): each
  input line is `word<TAB>frequency`; words whose frequency reaches the
  threshold are added to an associative tree with the frequency as the
  score of their last node; afterwards every inner node's score becomes
  the sum of its children's scores, computed bottom-up.
 */
module TrigramBuilder {
  import opened Common
  import opened Associative

  /** The default `threshold` of `addNodeRecursively`. */
  const DefaultThreshold: int := 100

  // ---------------------------------------------------------------------
  // Sums.

  function Sum(xs: seq<int>): int {
    if xs == [] then 0 else xs[0] + Sum(xs[1..])
  }

  lemma {:induction false} SumAppend(xs: seq<int>, ys: seq<int>)
    ensures Sum(xs + ys) == Sum(xs) + Sum(ys)
  {
    if xs == [] {
      assert xs + ys == ys;
    } else {
      assert (xs + ys)[1..] == xs[1..] + ys;
      SumAppend(xs[1..], ys);
    }
  }

  lemma {:induction false} SumNonNegative(xs: seq<int>)
    requires forall i :: 0 <= i < |xs| ==> xs[i] >= 0
    ensures Sum(xs) >= 0
  {
    if xs != [] {
      SumNonNegative(xs[1..]);
    }
  }

  /** The concatenation of a list of lists. */
  function Flatten(ss: seq<seq<int>>): seq<int> {
    if ss == [] then [] else ss[0] + Flatten(ss[1..])
  }

  /** Summing a concatenation is summing the sums of the parts. */
  lemma {:induction false} SumFlatten(ss: seq<seq<int>>, sums: seq<int>)
    requires |sums| == |ss| && forall i :: 0 <= i < |ss| ==> sums[i] == Sum(ss[i])
    ensures Sum(Flatten(ss)) == Sum(sums)
  {
    if ss != [] {
      SumFlatten(ss[1..], sums[1..]);
      SumAppend(ss[0], Flatten(ss[1..]));
    }
  }

  // ---------------------------------------------------------------------
  // Adding a word.

  /** The walk of `addNodeRecursively`: create the path, then set the last node's score. */
  function AddPath(n: ANode, word: seq<char>, freq: int): (r: ANode)
    ensures Walk(r, word).Some? && Walk(r, word).value.score == freq
    ensures r.key == n.key && r.sortedCache == n.sortedCache
    ensures word != [] ==> r.score == n.score
    ensures forall k :: k in Keys(n) ==> k in Keys(r)
    ensures Valid(n) ==> Valid(r)
    decreases word
  {
    if word == [] then n.(score := freq)
    else
      var m := AddChild(n, word[0]);
      IndexFound(m, word[0]);
      var i := Index(m.children, word[0]);
      var c := AddPath(m.children[i], word[1..], freq);
      var r := ReplaceChild(m, i, c);
      assert Keys(r) == Keys(m);
      IndexSameKeys(r.children, m.children, word[0]);
      assert GetChild(r, word[0]) == Some(c);
      assert Valid(n) ==> Valid(r) by {
        if Valid(n) {
          assert Valid(m.children[i]);
        }
      }
      r
  }

  /**
    `addNodeRecursively(root, word, frequency, threshold)`: below the
    threshold nothing happens and 1 is returned; otherwise the word's path
    exists afterwards, its last node scores exactly the frequency, and 0 is
    returned.
   */
  function AddNodeRecursively(root: ANode, word: seq<char>, freq: int, threshold: int): (r: (ANode, int))
    ensures freq < threshold ==> r == (root, 1)
    ensures freq >= threshold ==>
      r.1 == 0 && Walk(r.0, word).Some? && Walk(r.0, word).value.score == freq
    ensures Valid(root) ==> Valid(r.0)
  {
    if freq >= threshold then (AddPath(root, word, freq), 0) else (root, 1)
  }

  /** Adding a word keeps every node that was already there. */
  lemma {:induction false} AddPathKeepsNodes(n: ANode, word: seq<char>, freq: int, p: seq<char>)
    requires Valid(n) && Walk(n, p).Some?
    ensures Walk(AddPath(n, word, freq), p).Some?
    decreases p
  {
    if p != [] && word != [] {
      var m := AddChild(n, word[0]);
      IndexFound(m, word[0]);
      var i := Index(m.children, word[0]);
      var c := AddPath(m.children[i], word[1..], freq);
      var r := AddPath(n, word, freq);
      assert r == ReplaceChild(m, i, c);
      assert Keys(r) == Keys(m);
      var old_c := GetChild(n, p[0]).value;
      assert p[0] in Keys(m);
      IndexSameKeys(r.children, m.children, p[0]);
      IndexFound(n, p[0]);
      var j := Index(n.children, p[0]);
      assert old_c == n.children[j];
      assert Valid(old_c);
      if p[0] == word[0] {
        assert m == n;
        AddPathKeepsNodes(old_c, word[1..], freq, p[1..]);
        assert GetChild(r, p[0]) == Some(c);
      } else {
        AddChildKeepsIndex(n, word[0], p[0]);
        assert Index(m.children, p[0]) == j && j != i;
        assert GetChild(r, p[0]) == Some(old_c);
      }
    }
  }

  lemma AddChildKeepsIndex(n: ANode, c: char, d: char)
    requires d in Keys(n)
    ensures var m := AddChild(n, c);
      Index(m.children, d) == Index(n.children, d) && m.children[Index(n.children, d)] == n.children[Index(n.children, d)]
  {
    IndexFound(n, d);
    var m := AddChild(n, c);
    if c !in Keys(n) {
      IndexPrefix(n.children, [NewNode(c)], d);
    }
  }

  lemma {:induction false} IndexPrefix(a: seq<ANode>, b: seq<ANode>, d: char)
    requires Index(a, d) < |a|
    ensures Index(a + b, d) == Index(a, d)
  {
    if a[0].key != d {
      assert (a + b)[1..] == a[1..] + b;
      IndexPrefix(a[1..], b, d);
    }
  }

  // ---------------------------------------------------------------------
  // Scores bottom-up.

  /** The scores of the leaves (nodes without children) below `n`, left to right. */
  ghost function Leaves(n: ANode): seq<int>
    decreases n, 1
  {
    if n.children == [] then [n.score] else Flatten(ChildLeaves(n))
  }

  /** The leaf scores of each child of `n`. */
  ghost function ChildLeaves(n: ANode): (r: seq<seq<int>>)
    ensures |r| == |n.children|
    decreases n, 0
  {
    seq(|n.children|, i requires 0 <= i < |n.children| => Leaves(n.children[i]))
  }

  /** Every inner node scores the sum of the leaf scores below it. */
  ghost predicate Summed(n: ANode)
    decreases n
  {
    && (n.children != [] ==> n.score == Sum(Leaves(n)))
    && (forall i :: 0 <= i < |n.children| ==> Summed(n.children[i]))
  }

  /** The tree without scores and caches. */
  function Shape(n: ANode): ANode
    decreases n, 1
  {
    ANode(n.key, ChildShapes(n), 0, None)
  }

  function ChildShapes(n: ANode): (r: seq<ANode>)
    ensures |r| == |n.children|
    decreases n, 0
  {
    seq(|n.children|, i requires 0 <= i < |n.children| => Shape(n.children[i]))
  }

  /**
    `calculateScoresPostOrder(node)`: a leaf keeps its score; an inner node
    gets the sum of what its children return. The result is the sum of the
    leaf scores below, every inner node then holds that sum for its own
    subtree, and the leaves and the shape are unchanged.
   */
  function CalculateScoresPostOrder(n: ANode): (r: (ANode, int))
    ensures r.1 == Sum(Leaves(n)) && r.0.score == r.1
    ensures Leaves(r.0) == Leaves(n)
    ensures Summed(r.0)
    ensures Shape(r.0) == Shape(n)
    decreases n
  {
    if n.children == [] then (n, n.score)
    else
      var cs := n.children;
      var rs := seq(|cs|, i requires 0 <= i < |cs| => CalculateScoresPostOrder(cs[i]));
      var sums := seq(|rs|, i requires 0 <= i < |rs| => rs[i].1);
      var total := Sum(sums);
      var r := n.(children := seq(|rs|, i requires 0 <= i < |rs| => rs[i].0), score := total);
      assert total == Sum(Leaves(n)) by {
        SumFlatten(ChildLeaves(n), sums);
      }
      assert Leaves(r) == Leaves(n) by {
        assert ChildLeaves(r) == ChildLeaves(n);
      }
      assert Shape(r) == Shape(n) by {
        assert ChildShapes(r) == ChildShapes(n);
      }
      (r, total)
  }

  /**
    A word that is a prefix of another loses its own frequency: after
    adding `a` (150) and `ab` (200), the node of `a` scores 200.
   */
  lemma PrefixWordLosesFrequency()
    ensures var t := ANode(RootChar, [ANode('a', [ANode('b', [], 200, None)], 150, None)], 0, None);
      var r := CalculateScoresPostOrder(t);
      r.1 == 200 && Walk(r.0, "a").Some? && Walk(r.0, "a").value.score == 200
  {
    var b := ANode('b', [], 200, None);
    var a := ANode('a', [b], 150, None);
    var t := ANode(RootChar, [a], 0, None);
    assert Leaves(b) == [200];
    assert ChildLeaves(a) == [[200]];
    assert Flatten([[200]]) == [200] by {
      assert [[200]][1..] == [];
    }
    assert Leaves(a) == [200];
    assert ChildLeaves(t) == [[200]];
    assert Leaves(t) == [200];
    var r := CalculateScoresPostOrder(t);
    assert Summed(r.0);
    assert Shape(r.0) == Shape(t);
    assert |r.0.children| == 1 && r.0.children[0].key == 'a';
    assert Keys(r.0) == ['a'];
    var a' := r.0.children[0];
    assert a'.children != [] by {
      assert ChildShapes(r.0)[0] == Shape(a');
      assert ChildShapes(t)[0] == Shape(a);
    }
    assert ChildLeaves(r.0) == [Leaves(a')];
    assert Leaves(r.0) == Leaves(a');
    assert GetChild(r.0, 'a') == Some(a');
    assert Walk(r.0, "a") == Walk(a', []);
  }

  // ---------------------------------------------------------------------
  // Counting.

  /** `countNodes(node)`: one for the node plus the counts of its children. */
  function CountNodes(n: ANode): (r: int)
    ensures r >= 1
    decreases n
  {
    var counts := seq(|n.children|, i requires 0 <= i < |n.children| => CountNodes(n.children[i]));
    SumNonNegative(counts);
    1 + Sum(counts)
  }

  /** A new child adds exactly one node; an existing one adds none. */
  lemma AddChildCount(n: ANode, c: char)
    ensures CountNodes(AddChild(n, c)) == CountNodes(n) + (if c in Keys(n) then 0 else 1)
  {
    if c !in Keys(n) {
      var m := AddChild(n, c);
      var old_counts := seq(|n.children|, i requires 0 <= i < |n.children| => CountNodes(n.children[i]));
      var new_counts := seq(|m.children|, i requires 0 <= i < |m.children| => CountNodes(m.children[i]));
      assert new_counts == old_counts + [CountNodes(NewNode(c))];
      assert CountNodes(NewNode(c)) == 1 by {
        assert seq(0, i requires 0 <= i < 0 => 0) == [];
      }
      SumAppend(old_counts, [1]);
    }
  }

  /** The count depends on the shape only, so scoring leaves it unchanged. */
  lemma {:induction false} CountByShape(a: ANode, b: ANode)
    requires Shape(a) == Shape(b)
    ensures CountNodes(a) == CountNodes(b)
    decreases a
  {
    assert |a.children| == |Shape(a).children| == |b.children|;
    forall i | 0 <= i < |a.children| ensures CountNodes(a.children[i]) == CountNodes(b.children[i]) {
      assert ChildShapes(a)[i] == Shape(a.children[i]);
      assert ChildShapes(b)[i] == Shape(b.children[i]);
      CountByShape(a.children[i], b.children[i]);
    }
    assert seq(|a.children|, i requires 0 <= i < |a.children| => CountNodes(a.children[i]))
        == seq(|b.children|, i requires 0 <= i < |b.children| => CountNodes(b.children[i]));
  }

  // ---------------------------------------------------------------------
  // Reading a line.

  /** Kotlin's `s.split(sep)` for a single-char separator: every field, empty ones included. */
  function Split(s: seq<char>, sep: char): (r: seq<seq<char>>)
    ensures |r| >= 1
    ensures forall i :: 0 <= i < |r| ==> sep !in r[i]
    ensures Join(r, sep) == s
    decreases |s|
  {
    if sep !in s then [s]
    else
      var i := FirstIndex(s, sep);
      var rest := Split(s[i + 1..], sep);
      var r := [s[..i]] + rest;
      assert r[1..] == rest;
      assert s == s[..i] + [sep] + s[i + 1..];
      r
  }

  /** Fields joined with the separator (Kotlin's `joinToString(sep)`). */
  function Join(parts: seq<seq<char>>, sep: char): seq<char>
    requires |parts| >= 1
  {
    if |parts| == 1 then parts[0] else parts[0] + [sep] + Join(parts[1..], sep)
  }

  function FirstIndex(s: seq<char>, c: char): (i: nat)
    requires c in s
    ensures i < |s| && s[i] == c && c !in s[..i]
  {
    if s[0] == c then 0 else FirstIndex(s[1..], c) + 1
  }

  /** Splitting the join of separator-free fields gives the fields back. */
  lemma {:induction false} SplitJoin(parts: seq<seq<char>>, sep: char)
    requires |parts| >= 1 && forall i :: 0 <= i < |parts| ==> sep !in parts[i]
    ensures Split(Join(parts, sep), sep) == parts
  {
    if |parts| > 1 {
      var s := Join(parts, sep);
      var p0 := parts[0];
      assert s[..|p0|] == p0 && s[|p0|] == sep;
      assert FirstIndex(s, sep) == |p0| by {
        FirstIndexAt(s, sep, |p0|);
      }
      assert s[|p0| + 1..] == Join(parts[1..], sep);
      SplitJoin(parts[1..], sep);
      assert parts == [p0] + parts[1..];
    }
  }

  lemma FirstIndexAt(s: seq<char>, c: char, k: nat)
    requires k < |s| && s[k] == c && c !in s[..k]
    ensures FirstIndex(s, c) == k
  {
  
  }

  const IntMin: int := -0x8000_0000
  const IntMax: int := 0x7fff_ffff

  predicate IsDigit(c: char) { '0' <= c <= '9' }

  predicate AllDigits(s: seq<char>) { forall i :: 0 <= i < |s| ==> IsDigit(s[i]) }

  /** The value of a string of decimal digits. */
  function DigitsValue(ds: seq<char>): nat
    requires AllDigits(ds)
  {
    if ds == [] then 0
    else
      var d := ds[|ds| - 1] as int - '0' as int;
      assert IsDigit(ds[|ds| - 1]);
      10 * DigitsValue(ds[..|ds| - 1]) + d
  }

  /**
    Kotlin's `toIntOrNull()`: an optional sign, then at least one digit,
    and the value must fit in a 32-bit `Int`; anything else is null.
   */
  function ToIntOrNull(s: seq<char>): (r: Option<int>)
    ensures r.Some? ==> IntMin <= r.value <= IntMax && s != []
    ensures s == [] || s == "-" || s == "+" ==> r == None
  {
    if s == [] then None
    else
      var neg := s[0] == '-';
      var digits := if s[0] == '-' || s[0] == '+' then s[1..] else s;
      if digits == [] || !AllDigits(digits) then None
      else
        var v: int := if neg then -(DigitsValue(digits) as int) else DigitsValue(digits);
        if IntMin <= v <= IntMax then Some(v) else None
  }

  /** Decimal digits of a natural number, most significant first. */
  function ShowNat(n: nat): (r: seq<char>)
    ensures r != [] && AllDigits(r)
  {
    if n < 10 then [('0' as int + n) as char]
    else ShowNat(n / 10) + [('0' as int + n % 10) as char]
  }

  /** Kotlin's `Int.toString()`. */
  function ShowInt(v: int): seq<char> {
    if v < 0 then "-" + ShowNat(-v) else ShowNat(v)
  }

  lemma {:induction false} ShowNatValue(n: nat)
    ensures DigitsValue(ShowNat(n)) == n
  {
    if n >= 10 {
      var s := ShowNat(n);
      assert s[..|s| - 1] == ShowNat(n / 10);
      ShowNatValue(n / 10);
    }
  }

  /** Parsing a printed `Int` gives the number back. */
  lemma IntRoundTrip(v: int)
    requires IntMin <= v <= IntMax
    ensures ToIntOrNull(ShowInt(v)) == Some(v)
  {
    ShowNatValue(if v < 0 then -v else v);
    if v < 0 {
      assert ShowInt(v)[1..] == ShowNat(-v);
    }
  }

  /**
    One input line: split on tab; at least two fields are needed; the first
    is the word and the second the frequency, 0 when it is not an integer.
   */
  function ParseTrigramLine(line: seq<char>): (r: Option<(seq<char>, int)>)
    ensures r.None? <==> '\t' !in line
    ensures r.Some? ==>
      var w := r.value.0;
      |w| < |line| && line[..|w|] == w && line[|w|] == '\t' && '\t' !in w
  {
    var parts := Split(line, '\t');
    if |parts| >= 2 then
      assert line == parts[0] + ['\t'] + Join(parts[1..], '\t');
      assert line[..|parts[0]|] == parts[0];
      Some((parts[0], ToIntOrNull(parts[1]).GetOr(0)))
    else
      assert line == parts[0];
      None
  }

  /** A line printed as `word<TAB>frequency` reads back as the same word and frequency. */
  lemma LineRoundTrip(word: seq<char>, freq: int)
    requires '\t' !in word && IntMin <= freq <= IntMax
    ensures ParseTrigramLine(word + "\t" + ShowInt(freq)) == Some((word, freq))
  {
    IntRoundTrip(freq);
    assert '\t' !in ShowInt(freq) by {
      var ds := ShowNat(if freq < 0 then -freq else freq);
      assert ShowInt(freq) == (if freq < 0 then "-" else "") + ds;
    }
    assert Join([word, ShowInt(freq)], '\t') == word + "\t" + ShowInt(freq);
    SplitJoin([word, ShowInt(freq)], '\t');
  }

  /** A frequency that is not an integer counts as 0. */
  lemma LineBadFrequency()
    ensures ParseTrigramLine("ab\tx") == Some(("ab", 0))
  {
    assert Join(["ab", "x"], '\t') == "ab\tx";
    SplitJoin(["ab", "x"], '\t');
    assert ToIntOrNull("x") == None by {
      assert !AllDigits("x") by {
        assert !IsDigit("x"[0]);
      }
    }
  }

  /** Fields after the second are ignored. */
  lemma LineExtraField()
    ensures ParseTrigramLine("ab\t120\t7") == Some(("ab", 120))
  {
    var parts := ["ab", "120", "7"];
    assert parts[1..] == ["120", "7"] && parts[1..][1..] == ["7"];
    assert Join(parts, '\t') == "ab\t120\t7";
    SplitJoin(parts, '\t');
    assert ToIntOrNull("120") == Some(120) by {
      Show120();
      IntRoundTrip(120);
    }
  }

  lemma Show120()
    ensures ShowInt(120) == "120"
  {
    assert ShowNat(1) == "1";
    assert ShowNat(12) == ShowNat(1) + "2";
    assert ShowNat(120) == ShowNat(12) + "0";
  }

  /** A line without a tab is rejected. */
  lemma LineWithoutTab()
    ensures ParseTrigramLine("ab") == None
  {
    assert '\t' !in "ab";
  }
}
