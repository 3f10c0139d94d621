/**
  The boundary serialiser (`JsonConverter`): hand-written JSON for the
  candidate lists shown by the keyboard page, and a pattern-based reader
  for one `{"w":…,"p":…}` object.

  No escaping is done (section 7 of RFC 8259 requires `"` and `\` inside
  strings to be escaped), so a word or path holding `"` does not come back.

  The reader is the regular expression
  `\{\s*"w"\s*:\s*"([^"]+)"\s*,\s*"p"\s*:\s*"([^"]+)"\s*\}` applied with
  `find`, i.e. at the leftmost position where it matches. Every `\s*`
  there is followed by a char that is not whitespace and every `[^"]+` by
  a `"`, so at a given position the only possible match takes the longest
  runs; `MatchPrefix` reads them that way.
 */
module JsonConverter {
  import opened Common
  import opened CandidateClass

  /** `\s` of a Java regular expression. */
  predicate IsSpace(c: char) {
    c == ' ' || ('\t' <= c <= '\r')
  }

  // ---------------------------------------------------------------------
  // Printing.

  /** The chars `"c",` … `"c"` of a non-empty char list. */
  function QuotedChars(cs: seq<char>): (r: string)
    requires cs != []
    ensures |r| == 4 * |cs| - 1
    ensures forall i :: 0 <= i < |cs| ==>
      r[4 * i] == '"' && r[4 * i + 1] == cs[i] && r[4 * i + 2] == '"'
    ensures forall i :: 0 <= i < |cs| - 1 ==> r[4 * i + 3] == ','
  {
    if |cs| == 1 then ['"', cs[0], '"']
    else
      var rest := QuotedChars(cs[1..]);
      var r := ['"', cs[0], '"', ','] + rest;
      forall i | 1 <= i < |cs|
        ensures r[4 * i] == '"' && r[4 * i + 1] == cs[i] && r[4 * i + 2] == '"'
        ensures i < |cs| - 1 ==> r[4 * i + 3] == ','
      {
        var j := i - 1;
        assert r[4 * i] == rest[4 * j] && r[4 * i + 1] == rest[4 * j + 1] && r[4 * i + 2] == rest[4 * j + 2];
        assert cs[i] == cs[1..][j];
        if i < |cs| - 1 {
          assert r[4 * i + 3] == rest[4 * j + 3];
        }
      }
      r
  }

  /**
    `charListToJson(list)`: `[]` for null or an empty list; otherwise every
    char in double quotes, separated by commas, in brackets.
   */
  function CharListToJson(cs: Option<seq<char>>): (r: string)
    ensures cs.None? || cs == Some([]) ==> r == "[]"
    ensures cs.Some? && cs.value != [] ==>
      var xs := cs.value;
      && |r| == 4 * |xs| + 1 && r[0] == '[' && r[|r| - 1] == ']'
      && (forall i :: 0 <= i < |xs| ==> r[4 * i + 1] == '"' && r[4 * i + 2] == xs[i] && r[4 * i + 3] == '"')
      && (forall i :: 0 <= i < |xs| - 1 ==> r[4 * i + 4] == ',')
  {
    match cs
    case None => "[]"
    case Some(xs) =>
      if xs == [] then "[]"
      else
        var q := QuotedChars(xs);
        var r := "[" + q + "]";
        assert forall k :: 0 <= k < |q| ==> r[k + 1] == q[k];
        r
  }

  /** The chars of a printed char list are the list: every fourth char from the second. */
  lemma CharListReadBack(xs: seq<char>)
    requires xs != []
    ensures var r := CharListToJson(Some(xs));
      seq(|xs|, i requires 0 <= i < |xs| => r[4 * i + 2]) == xs
  {
    var r := CharListToJson(Some(xs));
    var read := seq(|xs|, i requires 0 <= i < |xs| => r[4 * i + 2]);
    forall i | 0 <= i < |xs| ensures read[i] == xs[i] {
      assert r[4 * i + 2] == xs[i];
    }
  }

  /**
    `candidatesPairToJson(pair)`: `{"w":"<word>","p":"<path>"}`, nothing
    escaped. The template is written as the pieces the reader's pattern
    is made of.
   */
  function PairToJson(p: CandidatePair): (r: string)
    ensures |r| == 15 + |p.candidateString| + |p.fullPath|
    ensures r[..6] == "{\"w\":\"" && r[6..6 + |p.candidateString|] == p.candidateString
    ensures r[|r| - 2..] == "\"}"
  {
    "{" + ("\"w\"" + (":" + ("\"" + (p.candidateString + ("\"" +
      ("," + ("\"p\"" + (":" + ("\"" + (p.fullPath + ("\"" + "}")))))))))))
  }

  /** The pair objects joined by commas (Kotlin's `joinToString(",")`). */
  function JoinPairs(ps: seq<CandidatePair>): (r: string)
    ensures ps == [] <==> r == []
    ensures ps != [] ==> |r| >= |PairToJson(ps[0])| && r[..|PairToJson(ps[0])|] == PairToJson(ps[0])
  {
    if ps == [] then ""
    else if |ps| == 1 then PairToJson(ps[0])
    else PairToJson(ps[0]) + "," + JoinPairs(ps[1..])
  }

  /** `candidatesListToJson(list)`: the pair objects in brackets. */
  function ListToJson(ps: seq<CandidatePair>): (r: string)
    ensures ps == [] ==> r == "[]"
    ensures |ps| == 1 ==> r == "[" + PairToJson(ps[0]) + "]"
    ensures |r| >= 2 && r[0] == '[' && r[|r| - 1] == ']'
  {
    "[" + JoinPairs(ps) + "]"
  }

  /** Joining two non-empty runs of pairs puts one comma between their joins. */
  lemma {:induction false} JoinPairsAppend(ps: seq<CandidatePair>, qs: seq<CandidatePair>)
    requires ps != [] && qs != []
    ensures JoinPairs(ps + qs) == JoinPairs(ps) + "," + JoinPairs(qs)
    decreases |ps|
  {
    var pq := ps + qs;
    assert pq[0] == ps[0];
    if |ps| == 1 {
      assert pq[1..] == qs;
    } else {
      assert pq[1..] == ps[1..] + qs;
      JoinPairsAppend(ps[1..], qs);
      var a := PairToJson(ps[0]);
      AppendAssoc(a + ",", JoinPairs(ps[1..]), "," + JoinPairs(qs));
    }
  }

  /**
    The printed list of two non-empty runs is the first run's list without
    its `]`, a comma, and the second run's list without its `[`. With the
    one-pair case of `ListToJson`, this fixes every printed list: each
    pair's object, in order, separated by commas.
   */
  lemma ListToJsonAppend(ps: seq<CandidatePair>, qs: seq<CandidatePair>)
    requires ps != [] && qs != []
    ensures var l := ListToJson(ps);
      ListToJson(ps + qs) == l[..|l| - 1] + "," + ListToJson(qs)[1..]
  {
    JoinPairsAppend(ps, qs);
    BracketSplice('[', ']', ',', JoinPairs(ps), JoinPairs(qs));
  }

  /** Splicing two bracketed runs: drop the first's closer and the second's opener, join with `m`. */
  lemma BracketSplice<T>(o: T, c: T, m: T, a: seq<T>, b: seq<T>)
    ensures [o] + (a + [m] + b) + [c] == ([o] + a + [c])[..|a| + 1] + [m] + ([o] + b + [c])[1..]
  {
    var lhs := [o] + (a + [m] + b) + [c];
    var rhs := ([o] + a + [c])[..|a| + 1] + [m] + ([o] + b + [c])[1..];
    assert |lhs| == |rhs|;
    forall i | 0 <= i < |lhs| ensures lhs[i] == rhs[i] {
      if i == 0 {
      } else if i <= |a| {
        assert lhs[i] == a[i - 1];
      } else if i == |a| + 1 {
      } else if i < |lhs| - 1 {
        assert lhs[i] == b[i - |a| - 2];
      }
    }
  }

  /** A printed non-empty list starts with `[` and the first printed pair. */
  lemma ListStartsWithFirstPair(ps: seq<CandidatePair>)
    requires ps != []
    ensures At(ListToJson(ps), 1, PairToJson(ps[0]))
  {
    var j := JoinPairs(ps);
    var pj := PairToJson(ps[0]);
    var r := ListToJson(ps);
    assert r == "[" + j + "]";
    assert r[1..1 + |j|] == j;
    assert j[..|pj|] == pj;
    assert r[1..1 + |pj|] == r[1..1 + |j|][..|pj|];
  }

  /** The keys of the three fields of a printed result, each with its leading punctuation. */
  const WordsKey: string := "{\"words\":"
  const CharsKey: string := ",\"chars\":"
  const HasNextPageKey: string := ",\"hasNextPage\":"

  /** `candidatesResultToJson(list, chars, hasNextPage)`; `ResultHead`, `ResultCharsField`,
      `ResultHasNextPageField` and `ResultLength` place its fields. */
  function ResultToJson(ps: seq<CandidatePair>, chars: Option<seq<char>>, hasNextPage: bool): string {
    ResultTemplate(ListToJson(ps), CharListToJson(chars), if hasNextPage then "true" else "false")
  }

  /** The result object around a printed word list `l`, char list `c` and flag `b`. */
  function ResultTemplate(l: string, c: string, b: string): string {
    WordsKey + (l + (CharsKey + (c + (HasNextPageKey + (b + "}")))))
  }

  /** A printed result opens with `{"words":` and the printed word list. */
  lemma ResultHead(ps: seq<CandidatePair>, chars: Option<seq<char>>, hasNextPage: bool)
    ensures At(ResultToJson(ps, chars, hasNextPage), 0, WordsKey)
    ensures At(ResultToJson(ps, chars, hasNextPage), 9, ListToJson(ps))
  {
    var b := if hasNextPage then "true" else "false";
    KeyedFields(ListToJson(ps), CharListToJson(chars), b);
  }

  /** After the word list come `,"chars":` and the printed char list. */
  lemma ResultCharsField(ps: seq<CandidatePair>, chars: Option<seq<char>>, hasNextPage: bool)
    ensures At(ResultToJson(ps, chars, hasNextPage), 9 + |ListToJson(ps)|, CharsKey)
    ensures At(ResultToJson(ps, chars, hasNextPage), 18 + |ListToJson(ps)|, CharListToJson(chars))
  {
    var b := if hasNextPage then "true" else "false";
    KeyedFields(ListToJson(ps), CharListToJson(chars), b);
  }

  /** After the char list come `,"hasNextPage":`, then `true` or `false`. */
  lemma ResultHasNextPageField(ps: seq<CandidatePair>, chars: Option<seq<char>>, hasNextPage: bool)
    ensures At(ResultToJson(ps, chars, hasNextPage), 18 + |ListToJson(ps)| + |CharListToJson(chars)|,
               HasNextPageKey)
    ensures At(ResultToJson(ps, chars, hasNextPage), 33 + |ListToJson(ps)| + |CharListToJson(chars)|,
               if hasNextPage then "true" else "false")
  {
    KeyedFields(ListToJson(ps), CharListToJson(chars), if hasNextPage then "true" else "false");
  }

  /** A printed result ends right after the flag with `}`. */
  lemma ResultLength(ps: seq<CandidatePair>, chars: Option<seq<char>>, hasNextPage: bool)
    ensures |ResultToJson(ps, chars, hasNextPage)|
         == 34 + |ListToJson(ps)| + |CharListToJson(chars)| + (if hasNextPage then 4 else 5)
    ensures ResultToJson(ps, chars, hasNextPage)[|ResultToJson(ps, chars, hasNextPage)| - 1] == '}'
  {
    if hasNextPage {
      assert |"true"| == 4;
      KeyedFields(ListToJson(ps), CharListToJson(chars), "true");
    } else {
      assert |"false"| == 5;
      KeyedFields(ListToJson(ps), CharListToJson(chars), "false");
    }
  }

  /** The template of a printed result, with the keys' lengths (9, 9 and 15) worked out. */
  lemma KeyedFields(l: string, c: string, b: string)
    ensures var r := ResultTemplate(l, c, b);
      && At(r, 0, WordsKey) && At(r, 9, l) && At(r, 9 + |l|, CharsKey) && At(r, 18 + |l|, c)
      && At(r, 18 + |l| + |c|, HasNextPageKey) && At(r, 33 + |l| + |c|, b)
      && |r| == 34 + |l| + |c| + |b| && r[|r| - 1] == '}'
  {
    assert |WordsKey| == 9 && |CharsKey| == 9 && |HasNextPageKey| == 15;
    TemplateFields(WordsKey, l, CharsKey, c, HasNextPageKey, b, ResultTemplate(l, c, b),
                   9, 9 + |l|, 18 + |l|, 18 + |l| + |c|, 33 + |l| + |c|, 34 + |l| + |c| + |b|);
  }

  /**
    Where each piece of a six-piece template `w l ch c hn b }` lands:
    `o1` … `o5` are the offsets of `l` … `b` and `n` the template's length.
   */
  lemma TemplateFields(w: string, l: string, ch: string, c: string, hn: string, b: string, r: string,
                       o1: nat, o2: nat, o3: nat, o4: nat, o5: nat, n: nat)
    requires r == w + (l + (ch + (c + (hn + (b + "}")))))
    requires o1 == |w| && o2 == |w| + |l| && o3 == |w| + |l| + |ch| && o4 == |w| + |l| + |ch| + |c|
    requires o5 == |w| + |l| + |ch| + |c| + |hn| && n == |w| + |l| + |ch| + |c| + |hn| + |b| + 1
    ensures && At(r, 0, w) && At(r, o1, l) && At(r, o2, ch) && At(r, o3, c)
      && At(r, o4, hn) && At(r, o5, b) && |r| == n && r[|r| - 1] == '}'
  {
    var t0 := l + (ch + (c + (hn + (b + "}"))));
    AtHead(w, t0);
    AtShift(w, t0, 0, |w|, l) by { AtHead(l, ch + (c + (hn + (b + "}")))); }
    TemplateCh(w, l, ch, c, hn, b);
    TemplateC(w, l, ch, c, hn, b);
    TemplateHn(w, l, ch, c, hn, b);
    TemplateB(w, l, ch, c, hn, b);
  }

  /** The third piece of the template sits after the first two. */
  lemma TemplateCh(w: string, l: string, ch: string, c: string, hn: string, b: string)
    ensures At(w + (l + (ch + (c + (hn + (b + "}"))))), |w| + |l|, ch)
  {
    var t1 := ch + (c + (hn + (b + "}")));
    AtHead(ch, c + (hn + (b + "}")));
    AtShift(l, t1, 0, |l|, ch);
    AtShift(w, l + t1, |l|, |w| + |l|, ch);
  }

  /** The fourth piece of the template sits after the first three. */
  lemma TemplateC(w: string, l: string, ch: string, c: string, hn: string, b: string)
    ensures At(w + (l + (ch + (c + (hn + (b + "}"))))), |w| + |l| + |ch|, c)
  {
    var t2 := c + (hn + (b + "}"));
    AtHead(c, hn + (b + "}"));
    AtShift(ch, t2, 0, |ch|, c);
    AtShift(l, ch + t2, |ch|, |l| + |ch|, c);
    AtShift(w, l + (ch + t2), |l| + |ch|, |w| + |l| + |ch|, c);
  }

  /** The fifth piece of the template sits after the first four. */
  lemma TemplateHn(w: string, l: string, ch: string, c: string, hn: string, b: string)
    ensures At(w + (l + (ch + (c + (hn + (b + "}"))))), |w| + |l| + |ch| + |c|, hn)
  {
    var t3 := hn + (b + "}");
    AtHead(hn, b + "}");
    AtShift(c, t3, 0, |c|, hn);
    AtShift(ch, c + t3, |c|, |ch| + |c|, hn);
    AtShift(l, ch + (c + t3), |ch| + |c|, |l| + |ch| + |c|, hn);
    AtShift(w, l + (ch + (c + t3)), |l| + |ch| + |c|, |w| + |l| + |ch| + |c|, hn);
  }

  /** The sixth piece of the template sits after the first five, followed by the closing brace. */
  lemma TemplateB(w: string, l: string, ch: string, c: string, hn: string, b: string)
    ensures var r := w + (l + (ch + (c + (hn + (b + "}")))));
      && At(r, |w| + |l| + |ch| + |c| + |hn|, b)
      && |r| == |w| + |l| + |ch| + |c| + |hn| + |b| + 1 && r[|r| - 1] == '}'
  {
    var t4 := b + "}";
    AtHead(b, "}");
    AtShift(hn, t4, 0, |hn|, b);
    AtShift(c, hn + t4, |hn|, |c| + |hn|, b);
    AtShift(ch, c + (hn + t4), |c| + |hn|, |ch| + |c| + |hn|, b);
    AtShift(l, ch + (c + (hn + t4)), |ch| + |c| + |hn|, |l| + |ch| + |c| + |hn|, b);
    AtShift(w, l + (ch + (c + (hn + t4))), |l| + |ch| + |c| + |hn|, |w| + |l| + |ch| + |c| + |hn|, b);
  }

  /** A string holds its own prefix at 0. */
  lemma AtHead(x: string, rest: string)
    ensures At(x + rest, 0, x)
  {
    assert (x + rest)[..|x|] == x;
  }

  /** A literal found at `i` in `t` is found at `j == |x| + i` in `x + t`. */
  lemma AtShift(x: string, t: string, i: nat, j: nat, lit: string)
    requires At(t, i, lit) && j == |x| + i
    ensures At(x + t, j, lit)
  {
    assert (x + t)[j..j + |lit|] == t[i..i + |lit|];
  }

  // ---------------------------------------------------------------------
  // Reading.

  /** The first position at or after `i` that is not `\s`, or `|t|`. */
  function SkipSpace(t: string, i: nat): (j: nat)
    requires i <= |t|
    ensures i <= j <= |t| && (j < |t| ==> !IsSpace(t[j]))
    ensures forall k :: i <= k < j ==> IsSpace(t[k])
    decreases |t| - i
  {
    if i < |t| && IsSpace(t[i]) then SkipSpace(t, i + 1) else i
  }

  /** The first `"` at or after `i`, or `|t|`. */
  function QuoteEnd(t: string, i: nat): (j: nat)
    requires i <= |t|
    ensures i <= j <= |t| && (j < |t| ==> t[j] == '"')
    ensures '"' !in t[i..j]
    decreases |t| - i
  {
    if i < |t| && t[i] != '"' then
      var j := QuoteEnd(t, i + 1);
      assert t[i..j] == [t[i]] + t[i + 1..j];
      j
    else i
  }

  /** `"([^"]+)"` starting at the opening quote `i`: the text and the position after the closing quote. */
  function QuotedText(t: string, i: nat): (r: Option<(string, nat)>)
    requires i <= |t|
    ensures r.Some? ==> r.value.0 != [] && '"' !in r.value.0 && i < r.value.1 <= |t|
  {
    if !At(t, i, "\"") then None
    else
      var j := QuoteEnd(t, i + 1);
      if j == i + 1 || j == |t| then None else Some((t[i + 1..j], j + 1))
  }

  /** One element of the pattern after the opening brace, each preceded by `\s*`. */
  datatype Step = Lit(text: string) | Capture

  /** The pattern after `\{`. */
  const PairPattern: seq<Step> :=
    [Lit("\"w\""), Lit(":"), Capture, Lit(","), Lit("\"p\""), Lit(":"), Capture, Lit("}")]

  function CaptureCount(steps: seq<Step>): nat {
    if steps == [] then 0 else (if steps[0].Capture? then 1 else 0) + CaptureCount(steps[1..])
  }

  /** What a capture group accepts: at least one char, none of them `"`. */
  predicate Capturable(v: string) { v != [] && '"' !in v }

  /** Every capture of a list is capturable. */
  predicate AllCapturable(caps: seq<string>) {
    forall k :: 0 <= k < |caps| ==> Capturable(caps[k])
  }

  /**
    One step read from position `i`, after the `\s*` before it: the text
    it captures (nothing for a literal, one text for a group) and the
    position after it, or no match.
   */
  function StepAt(t: string, i: nat, step: Step): (r: Option<(seq<string>, nat)>)
    requires i <= |t|
    ensures r.Some? ==> r.value.1 <= |t| && AllCapturable(r.value.0)
    ensures r.Some? ==> |r.value.0| == if step.Capture? then 1 else 0
  {
    var j := SkipSpace(t, i);
    match step
    case Lit(x) => if At(t, j, x) then Some(([], j + |x|)) else None
    case Capture =>
      match QuotedText(t, j)
      case None => None
      case Some((v, k)) => Some(([v], k))
  }

  /** The steps read from position `i`: the captured texts, or no match. */
  function Run(t: string, i: nat, steps: seq<Step>): (r: Option<seq<string>>)
    requires i <= |t|
    ensures r.Some? ==> |r.value| == CaptureCount(steps)
    ensures r.Some? ==> AllCapturable(r.value)
    decreases steps
  {
    if steps == [] then Some([])
    else
      match StepAt(t, i, steps[0])
      case None => None
      case Some((c, k)) =>
        match Run(t, k, steps[1..])
        case None => None
        case Some(cs) => Some(c + cs)
  }

  /** The pattern has two capture groups and only literals the reader can anchor on. */
  lemma PatternFacts()
    ensures CaptureCount(PairPattern) == 2 && Literals(PairPattern)
  {
    PatternCaptures();
    PatternLiterals();
  }

  lemma PatternCaptures()
    ensures CaptureCount(PairPattern) == 2
  {
    var ps := PairPattern;
    assert ps[1..] == [Lit(":"), Capture, Lit(","), Lit("\"p\""), Lit(":"), Capture, Lit("}")];
    assert ps[1..][1..][1..] == [Lit(","), Lit("\"p\""), Lit(":"), Capture, Lit("}")];
    assert ps[1..][1..][1..][1..][1..][1..] == [Capture, Lit("}")];
  }

  lemma PatternLiterals()
    ensures Literals(PairPattern)
  {
    var ps := PairPattern;
    forall k | 0 <= k < |ps| && ps[k].Lit? ensures ps[k].text != [] && !IsSpace(ps[k].text[0]) {
      assert ps[k].text[0] in "\":,}";
    }
  }

  /** `b` is held in `a + b + c` right after `a`. */
  lemma AtMiddle(a: string, b: string, c: string)
    ensures At(a + b + c, |a|, b)
  {
    assert (a + b + c)[|a|..|a| + |b|] == b;
  }

  /** The pattern read from the start of `t`. */
  function MatchPrefix(t: string): (r: Option<CandidatePair>)
    ensures r.Some? ==> t != [] && t[0] == '{'
    ensures r.Some? ==> Printable(r.value)
  {
    if !At(t, 0, "{") then None
    else match Run(t, 1, PairPattern)
      case None => None
      case Some(cs) =>
        AtChar(t, 0, '{');
        PatternCaptures();
        PairCaptures(cs);
        Some(CandidatePair(cs[0], cs[1]))
  }

  /** The two captures of a match are each capturable. */
  lemma PairCaptures(cs: seq<string>)
    requires |cs| == 2 && AllCapturable(cs)
    ensures Capturable(cs[0]) && Capturable(cs[1])
  {
  }

  /** The pattern at position `i` of `s`. */
  function MatchAt(s: string, i: nat): Option<CandidatePair>
    requires i <= |s|
  {
    MatchPrefix(s[i..])
  }

  /** `regex.find(s, i)`: the match at the leftmost position from `i` on. */
  function FindFrom(s: string, i: nat): (r: Option<CandidatePair>)
    requires i <= |s|
    ensures r.None? <==> forall k :: i <= k <= |s| ==> MatchAt(s, k).None?
    decreases |s| - i
  {
    if MatchAt(s, i).Some? then MatchAt(s, i)
    else if i == |s| then None
    else FindFrom(s, i + 1)
  }

  /**
    `parseCandidatePairFromJson(json)`: the word and path of the first
    place the pattern matches, or null when it matches nowhere.
   */
  function ParseCandidatePairFromJson(json: string): (r: Option<CandidatePair>)
    ensures r.None? <==> forall k :: 0 <= k <= |json| ==> MatchAt(json, k).None?
    ensures r.Some? ==> r.value.candidateString != [] && '"' !in r.value.candidateString
    ensures r.Some? ==> r.value.fullPath != [] && '"' !in r.value.fullPath
  {
    FindFromValues(json, 0);
    FindFrom(json, 0)
  }

  lemma {:induction false} FindFromValues(s: string, i: nat)
    requires i <= |s|
    ensures FindFrom(s, i).Some? ==> exists k :: i <= k <= |s| && FindFrom(s, i) == MatchAt(s, k)
    decreases |s| - i
  {
    if MatchAt(s, i).None? && i < |s| {
      FindFromValues(s, i + 1);
    }
  }

  /** The leftmost match is found: no match before `k`, a match at `k`. */
  lemma {:induction false} FindFromAt(s: string, i: nat, k: nat)
    requires i <= k <= |s| && MatchAt(s, k).Some?
    requires forall j :: i <= j < k ==> MatchAt(s, j).None?
    ensures FindFrom(s, i) == MatchAt(s, k)
    decreases k - i
  {
    if i < k {
      FindFromAt(s, i + 1, k);
    }
  }

  // ---------------------------------------------------------------------
  // Round trips.

  /** What the reader needs of a pair: non-empty word and path without `"`. */
  predicate Printable(p: CandidatePair) {
    p.candidateString != [] && '"' !in p.candidateString &&
    p.fullPath != [] && '"' !in p.fullPath
  }

  lemma SkipSpaceAt(t: string, i: nat)
    requires i < |t| && !IsSpace(t[i])
    ensures SkipSpace(t, i) == i
  {
  }

  lemma QuoteEndAt(t: string, i: nat, k: nat)
    requires i <= k < |t| && t[k] == '"' && '"' !in t[i..k]
    ensures QuoteEnd(t, i) == k
    decreases k - i
  {
    if i < k {
      assert t[i] == t[i..k][0];
      assert t[i + 1..k] == t[i..k][1..];
      QuoteEndAt(t, i + 1, k);
    }
  }

  /** The text a sequence of steps reads, with the given captures and no extra whitespace. */
  function Render(steps: seq<Step>, caps: seq<string>): string
    requires |caps| == CaptureCount(steps)
    decreases steps
  {
    if steps == [] then ""
    else match steps[0]
      case Lit(x) => x + Render(steps[1..], caps)
      case Capture => "\"" + (caps[0] + ("\"" + Render(steps[1..], caps[1..])))
  }

  /** Every literal of the pattern is non-empty and starts with a char that is not `\s`. */
  predicate Literals(steps: seq<Step>) {
    forall k :: 0 <= k < |steps| && steps[k].Lit? ==>
      steps[k].text != [] && !IsSpace(steps[k].text[0])
  }

  /** A text held at `i` that is a concatenation holds both parts in turn. */
  lemma AtSplit(t: string, i: nat, x: string, y: string)
    requires At(t, i, x + y)
    ensures At(t, i, x) && At(t, i + |x|, y)
  {
    var u := t[i..i + |x| + |y|];
    assert t[i..i + |x|] == u[..|x|] == x;
    assert t[i + |x|..i + |x| + |y|] == u[|x|..] == y;
  }

  /** A one-char literal held at `i` is the char there. */
  lemma AtChar(t: string, i: nat, c: char)
    requires At(t, i, [c])
    ensures i < |t| && t[i] == c
  {
    assert t[i..i + 1][0] == t[i];
  }

  /** A literal step over text that starts with it: no space skipped, the literal read. */
  lemma LitStep(t: string, i: nat, x: string, r: string)
    requires x != [] && !IsSpace(x[0]) && At(t, i, x + r)
    ensures SkipSpace(t, i) == i && At(t, i, x) && At(t, i + |x|, r)
  {
    AtSplit(t, i, x, r);
    assert t[i] == t[i..i + |x|][0] == x[0];
    SkipSpaceAt(t, i);
  }

  /** A capture step over a quoted text: no space skipped, the text captured. */
  lemma CaptureStep(t: string, i: nat, v: string, r: string)
    requires Capturable(v) && At(t, i, "\"" + (v + ("\"" + r)))
    ensures SkipSpace(t, i) == i && QuotedText(t, i) == Some((v, i + |v| + 2))
    ensures At(t, i + |v| + 2, r)
  {
    var j := i + 1 + |v|;
    AtSplit(t, i, "\"", v + ("\"" + r));
    AtSplit(t, i + 1, v, "\"" + r);
    AtSplit(t, j, "\"", r);
    AtChar(t, i, '"');
    AtChar(t, j, '"');
    SkipSpaceAt(t, i);
    QuoteEndAt(t, i + 1, j);
  }

  lemma LiteralsTail(steps: seq<Step>)
    requires steps != [] && Literals(steps)
    ensures Literals(steps[1..])
  {
    var rest := steps[1..];
    forall k | 0 <= k < |rest| && rest[k].Lit? ensures rest[k].text != [] && !IsSpace(rest[k].text[0]) {
      assert rest[k] == steps[k + 1];
    }
  }

  /** `t` holds, at `i`, what the steps render with the captures; the reader can anchor on every literal. */
  predicate Rendered(t: string, i: nat, steps: seq<Step>, caps: seq<string>) {
    && |caps| == CaptureCount(steps) && Literals(steps) && AllCapturable(caps)
    && At(t, i, Render(steps, caps))
  }

  /** Reading what a pattern renders gives back the captures, whatever follows. */
  lemma {:induction false} RunRender(t: string, i: nat, steps: seq<Step>, caps: seq<string>)
    requires i <= |t| && Rendered(t, i, steps, caps)
    ensures Run(t, i, steps) == Some(caps)
    decreases steps, 1
  {
    if steps != [] {
      if steps[0].Lit? {
        RunRenderLit(t, i, steps, caps);
      } else {
        RunRenderCapture(t, i, steps, caps);
      }
    }
  }

  /** Once the first step is read, the run is that step's captures and the run of the rest. */
  lemma RunStep(t: string, i: nat, steps: seq<Step>, c: seq<string>, k: nat)
    requires i <= |t| && steps != [] && StepAt(t, i, steps[0]) == Some((c, k))
    ensures k <= |t| && Run(t, i, steps) == match Run(t, k, steps[1..])
      case None => None
      case Some(cs) => Some(c + cs)
  {
  }

  lemma {:induction false} RunRenderLit(t: string, i: nat, steps: seq<Step>, caps: seq<string>)
    requires i <= |t| && steps != [] && steps[0].Lit? && Rendered(t, i, steps, caps)
    ensures Run(t, i, steps) == Some(caps)
    decreases steps, 0
  {
    var k := i + |steps[0].text|;
    LitHead(t, i, steps, caps);
    RunStep(t, i, steps, [], k);
    RunRender(t, k, steps[1..], caps);
    assert [] + caps == caps;
  }

  lemma {:induction false} RunRenderCapture(t: string, i: nat, steps: seq<Step>, caps: seq<string>)
    requires i <= |t| && steps != [] && steps[0].Capture? && Rendered(t, i, steps, caps)
    ensures Run(t, i, steps) == Some(caps)
    decreases steps, 0
  {
    CaptureHead(t, i, steps, caps);
    var k := i + |caps[0]| + 2;
    RunStep(t, i, steps, [caps[0]], k);
    RunRender(t, k, steps[1..], caps[1..]);
    assert [caps[0]] + caps[1..] == caps;
  }

  /** The first step of a rendered text is a literal: it is read and the rest is rendered after it. */
  lemma LitHead(t: string, i: nat, steps: seq<Step>, caps: seq<string>)
    requires steps != [] && steps[0].Lit? && Rendered(t, i, steps, caps)
    ensures StepAt(t, i, steps[0]) == Some(([], i + |steps[0].text|))
    ensures Rendered(t, i + |steps[0].text|, steps[1..], caps)
  {
    var x := steps[0].text;
    var r := Render(steps[1..], caps);
    LiteralsTail(steps);
    assert Render(steps, caps) == x + r;
    assert x != [] && !IsSpace(x[0]);
    LitStep(t, i, x, r);
  }

  /** The first step of a rendered text is a capture: its quoted text is read and the rest is rendered after it. */
  lemma CaptureHead(t: string, i: nat, steps: seq<Step>, caps: seq<string>)
    requires steps != [] && steps[0].Capture? && Rendered(t, i, steps, caps)
    ensures caps != [] && StepAt(t, i, steps[0]) == Some(([caps[0]], i + |caps[0]| + 2))
    ensures Rendered(t, i + |caps[0]| + 2, steps[1..], caps[1..])
  {
    var v := caps[0];
    assert Capturable(v);
    var r := Render(steps[1..], caps[1..]);
    LiteralsTail(steps);
    assert Render(steps, caps) == "\"" + (v + ("\"" + r));
    CaptureStep(t, i, v, r);
    assert AllCapturable(caps[1..]) by {
      forall k | 0 <= k < |caps| - 1 ensures Capturable(caps[1..][k]) {
        assert caps[1..][k] == caps[k + 1];
      }
    }
  }

  /** The printed pair is the opening brace and the pattern rendered with its word and path. */
  lemma PairRendersPattern(p: CandidatePair)
    ensures CaptureCount(PairPattern) == 2
    ensures PairToJson(p) == "{" + Render(PairPattern, [p.candidateString, p.fullPath])
  {
    var w := p.candidateString;
    var q := p.fullPath;
    var e: seq<Step> := [];
    var s7 := [Lit("}")] + e;
    var s6 := [Capture] + s7;
    var s5 := [Lit(":")] + s6;
    var s4 := [Lit("\"p\"")] + s5;
    var s3 := [Lit(",")] + s4;
    var s2 := [Capture] + s3;
    var s1 := [Lit(":")] + s2;
    assert PairPattern == [Lit("\"w\"")] + s1;
    RenderLit("}", e, []);
    assert Render(s7, []) == "}";
    RenderCap(q, s7, []);
    assert [q] + [] == [q];
    RenderLit(":", s6, [q]);
    RenderLit("\"p\"", s5, [q]);
    RenderLit(",", s4, [q]);
    RenderCap(w, s3, [q]);
    RenderLit(":", s2, [w, q]);
    RenderLit("\"w\"", s1, [w, q]);
  }

  lemma RenderLit(x: string, rest: seq<Step>, caps: seq<string>)
    requires |caps| == CaptureCount(rest)
    ensures CaptureCount([Lit(x)] + rest) == CaptureCount(rest)
    ensures Render([Lit(x)] + rest, caps) == x + Render(rest, caps)
  {
    assert ([Lit(x)] + rest)[1..] == rest;
  }

  lemma RenderCap(v: string, rest: seq<Step>, caps: seq<string>)
    requires |caps| == CaptureCount(rest)
    ensures CaptureCount([Capture] + rest) == 1 + CaptureCount(rest)
    ensures Render([Capture] + rest, [v] + caps) == "\"" + (v + ("\"" + Render(rest, caps)))
  {
    assert ([Capture] + rest)[1..] == rest;
    assert ([v] + caps)[1..] == caps;
  }

  /**
    A printed pair is read back from the start of any text that begins
    with it, whatever follows.
   */
  lemma PairPrefixRoundTrip(p: CandidatePair, rest: string)
    requires Printable(p)
    ensures MatchPrefix(PairToJson(p) + rest) == Some(p)
  {
    var t := PairToJson(p) + rest;
    var caps := [p.candidateString, p.fullPath];
    PairRendersPattern(p);
    PatternFacts();
    var r := Render(PairPattern, caps);
    AtMiddle("{", r, rest);
    AtMiddle([], "{", r + rest);
    assert t == "{" + r + rest && [] + "{" + (r + rest) == t;
    assert AllCapturable(caps);
    RunRender(t, 1, PairPattern, caps);
  }

  /** `parse(pairToJson(p)) == p` for a pair whose word and path are non-empty and free of `"`. */
  lemma PairRoundTrip(p: CandidatePair)
    requires Printable(p)
    ensures ParseCandidatePairFromJson(PairToJson(p)) == Some(p)
  {
    var s := PairToJson(p);
    PairPrefixRoundTrip(p, "");
    assert s + "" == s && s[0..] == s;
    FindFromAt(s, 0, 0);
  }

  /** An empty word is never read back: the pattern needs at least one char. */
  lemma EmptyWordNotRead(path: seq<char>)
    ensures MatchPrefix(PairToJson(CandidatePair("", path))).None?
  {
    var t := PairToJson(CandidatePair("", path));
    assert t[..6] == "{\"w\":\"" && t[6] == '"';
    var ps := PairPattern;
    assert At(t, 0, "{") && At(t, 1, "\"w\"") && At(t, 4, ":");
    SkipSpaceAt(t, 1);
    SkipSpaceAt(t, 4);
    SkipSpaceAt(t, 5);
    assert QuoteEnd(t, 6) == 6;
    assert QuotedText(t, 5) == None;
    assert Run(t, 5, ps[1..][1..]) == None;
    assert Run(t, 4, ps[1..]) == Run(t, 5, ps[1..][1..]);
  }

  /** Wherever a printed pair appears, it is matched there. */
  lemma PairMatchedAt(s: string, i: nat, p: CandidatePair)
    requires Printable(p)
    requires At(s, i, PairToJson(p))
    ensures MatchAt(s, i) == Some(p)
  {
    var pj := PairToJson(p);
    var rest := s[i + |pj|..];
    assert s[i..] == pj + rest by {
      assert s[i..] == s[i..i + |pj|] + s[i + |pj|..];
    }
    PairPrefixRoundTrip(p, rest);
  }

  /** Positions that do not hold `{` start no match. */
  lemma NoBraceNoMatch(s: string, j: nat)
    requires j < |s| && s[j] != '{'
    ensures MatchAt(s, j).None?
  {
    assert s[j..][0] == s[j];
  }

  /** A text that opens with `[` and a printed pair reads as that pair. */
  lemma ListShapeReadsPair(s: string, p: CandidatePair)
    requires Printable(p) && |s| > 0 && s[0] == '[' && At(s, 1, PairToJson(p))
    ensures ParseCandidatePairFromJson(s) == Some(p)
  {
    PairMatchedAt(s, 1, p);
    NoBraceNoMatch(s, 0);
    ParseFindsAt(s, 1, p);
  }

  /** Reading a printed list gives its first pair. */
  lemma ListReadsFirstPair(ps: seq<CandidatePair>)
    requires ps != [] && Printable(ps[0])
    ensures ParseCandidatePairFromJson(ListToJson(ps)) == Some(ps[0])
  {
    ListStartsWithFirstPair(ps);
    ListShapeReadsPair(ListToJson(ps), ps[0]);
  }

  /** The result object itself is not a pair: its first key is `words`, not `w`. */
  lemma ResultHeadNoMatch(s: string)
    requires At(s, 0, "{\"words\":")
    ensures MatchAt(s, 0).None?
  {
    var t := s[0..];
    assert t[1] == '"' && t[3] == 'o';
    SkipSpaceAt(t, 1);
    assert t[1..4] != "\"w\"" by {
      assert t[1..4][2] == 'o';
    }
  }

  /** Between the start of a printed result and its first pair, no position matches. */
  lemma ResultHeadNoMatchBefore(s: string)
    requires At(s, 0, "{\"words\":") && At(s, 9, "[")
    ensures forall j :: 0 <= j < 10 ==> MatchAt(s, j).None?
  {
    var h := "{\"words\":";
    assert s[0..9] == h && s[9..10] == "[";
    assert s[9] == '[';
    assert forall j :: 1 <= j < 9 ==> s[j] == h[j];
    assert forall j :: 1 <= j < 9 ==> h[j] != '{';
    ResultHeadNoMatch(s);
    forall j | 1 <= j < 10 ensures MatchAt(s, j).None? {
      NoBraceNoMatch(s, j);
    }
  }

  /** A text held inside a held text is held at the summed position. */
  lemma AtWithin(s: string, i: nat, l: string, j: nat, x: string)
    requires At(s, i, l) && At(l, j, x)
    ensures At(s, i + j, x)
  {
    var a := s[i + j..i + j + |x|];
    forall k | 0 <= k < |x| ensures a[k] == x[k] {
      assert s[i..i + |l|][j + k] == s[i + j + k];
      assert l[j..j + |x|][k] == l[j + k];
    }
    assert a == x;
  }

  /** A printed result opens with `{"words":[` followed by the first printed pair. */
  lemma ResultStartsWithFirstPair(ps: seq<CandidatePair>, chars: Option<seq<char>>, hasNextPage: bool)
    requires ps != []
    ensures var s := ResultToJson(ps, chars, hasNextPage);
      At(s, 0, "{\"words\":") && At(s, 9, "[") && At(s, 10, PairToJson(ps[0]))
  {
    var s := ResultToJson(ps, chars, hasNextPage);
    var lj := ListToJson(ps);
    ResultHead(ps, chars, hasNextPage);
    ListStartsWithFirstPair(ps);
    AtWithin(s, 9, lj, 1, PairToJson(ps[0]));
    assert lj[0..1] == "[";
    AtWithin(s, 9, lj, 0, "[");
  }

  /** The reader returns the match at `k` when no earlier position matches. */
  lemma ParseFindsAt(s: string, k: nat, p: CandidatePair)
    requires k <= |s| && MatchAt(s, k) == Some(p)
    requires forall j :: 0 <= j < k ==> MatchAt(s, j).None?
    ensures ParseCandidatePairFromJson(s) == Some(p)
  {
    FindFromAt(s, 0, k);
  }

  /** A text that opens like a printed result with a printed pair at position 10 reads as that pair. */
  lemma ResultShapeReadsPair(s: string, p: CandidatePair)
    requires Printable(p)
    requires At(s, 0, "{\"words\":") && At(s, 9, "[") && At(s, 10, PairToJson(p))
    ensures ParseCandidatePairFromJson(s) == Some(p)
  {
    PairMatchedAt(s, 10, p);
    ResultHeadNoMatchBefore(s);
    ParseFindsAt(s, 10, p);
  }

  /** Reading a printed result gives the first pair of its word list. */
  lemma ResultReadsFirstPair(ps: seq<CandidatePair>, chars: Option<seq<char>>, hasNextPage: bool)
    requires ps != [] && Printable(ps[0])
    ensures ParseCandidatePairFromJson(ResultToJson(ps, chars, hasNextPage)) == Some(ps[0])
  {
    ResultStartsWithFirstPair(ps, chars, hasNextPage);
    ResultShapeReadsPair(ResultToJson(ps, chars, hasNextPage), ps[0]);
  }

  // ---------------------------------------------------------------------
  // The unit-test examples.

  lemma CharListExample()
    ensures CharListToJson(Some(['a', 'b', 'c'])) == "[\"a\",\"b\",\"c\"]"
  {
    var abc := ['a', 'b', 'c'];
    assert abc[1..] == ['b', 'c'] && abc[1..][1..] == ['c'];
  }

  lemma PairExample()
    ensures PairToJson(CandidatePair("候選字", "abc")) == "{\"w\":\"候選字\",\"p\":\"abc\"}"
  {
  }

  lemma PairExample2()
    ensures PairToJson(CandidatePair("候選字2", "123")) == "{\"w\":\"候選字2\",\"p\":\"123\"}"
  {
  }

  lemma ListExample()
    ensures ListToJson([CandidatePair("候選字", "abc"), CandidatePair("候選字2", "123")])
      == "[" + "{\"w\":\"候選字\",\"p\":\"abc\"}" + "," + "{\"w\":\"候選字2\",\"p\":\"123\"}" + "]"
  {
    var ps := [CandidatePair("候選字", "abc"), CandidatePair("候選字2", "123")];
    PairExample();
    PairExample2();
    assert ps[1..] == [CandidatePair("候選字2", "123")];
    assert JoinPairs(ps[1..]) == "{\"w\":\"候選字2\",\"p\":\"123\"}";
    var j := "{\"w\":\"候選字\",\"p\":\"abc\"}" + "," + "{\"w\":\"候選字2\",\"p\":\"123\"}";
    assert JoinPairs(ps) == j;
    assert ListToJson(ps) == "[" + j + "]";
  }

  lemma ParseExample()
    ensures ParseCandidatePairFromJson("{\"w\":\"候選字2\",\"p\":\"123\"}") == Some(CandidatePair("候選字2", "123"))
  {
    var p := CandidatePair("候選字2", "123");
    assert Printable(p) by {
      assert forall k :: 0 <= k < |p.candidateString| ==> p.candidateString[k] != '"';
      assert forall k :: 0 <= k < |p.fullPath| ==> p.fullPath[k] != '"';
    }
    PairRoundTrip(p);
    PairExample2();
  }
}
