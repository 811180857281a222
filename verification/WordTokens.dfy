/**
  The words of a list of words, which is a string with some of the characters acting as delimiters.
*/
module WordTokens {

  /** The length of the run of delimiters at the start (as `strspn` returns). */
  function SpanIn(s: string, delims: string): (n: nat)
    ensures n <= |s| && (forall k :: 0 <= k < n ==> s[k] in delims) && (n < |s| ==> s[n] !in delims)
  {
    if s == "" || s[0] !in delims then 0 else 1 + SpanIn(s[1..], delims)
  }

  /** The length of the run of other characters at the start (as `strcspn` returns). */
  function SpanOut(s: string, delims: string): (n: nat)
    ensures n <= |s| && (forall k :: 0 <= k < n ==> s[k] !in delims) && (n < |s| ==> s[n] in delims)
  {
    if s == "" || s[0] in delims then 0 else 1 + SpanOut(s[1..], delims)
  }

  /** The words: the maximal runs of characters that are no delimiters. */
  function Tokens(s: string, delims: string): (ws: seq<string>)
    ensures forall k :: 0 <= k < |ws| ==> IsWord(ws[k], delims)
    decreases |s|
  {
    var t := s[SpanIn(s, delims)..];
    if t == "" then [] else
      var n := SpanOut(t, delims);
      [t[..n]] + Tokens(t[n..], delims)
  }

  predicate IsWord(w: string, delims: string) {
    w != "" && forall k :: 0 <= k < |w| ==> w[k] !in delims
  }

  predicate AllDelims(s: string, delims: string) {
    forall k :: 0 <= k < |s| ==> s[k] in delims
  }

  predicate EndsInDelim(s: string, delims: string) {
    s != "" && s[|s| - 1] in delims
  }

  lemma NoWords(delims: string)
    ensures Tokens("", delims) == []
  {
  }

  /** A delimiter in front changes nothing. */
  lemma SkipOne(s: string, delims: string)
    requires s != "" && s[0] in delims
    ensures Tokens(s, delims) == Tokens(s[1..], delims)
  {
    var n := SpanIn(s[1..], delims);
    assert s[n + 1..] == s[1..][n..];
  }

  lemma {:induction false} SkipAll(p: string, s: string, delims: string)
    requires AllDelims(p, delims)
    ensures Tokens(p + s, delims) == Tokens(s, delims)
  {
    if p == "" {
      assert p + s == s;
    } else {
      assert (p + s)[1..] == p[1..] + s;
      SkipOne(p + s, delims);
      SkipAll(p[1..], s, delims);
    }
  }

  lemma WordFirst(s: string, n: nat, delims: string)
    requires 0 < n <= |s| && (forall k :: 0 <= k < n ==> s[k] !in delims) && (n < |s| ==> s[n] in delims)
    ensures Tokens(s, delims) == [s[..n]] + Tokens(s[n..], delims)
  {
    assert SpanIn(s, delims) == 0 && s[0..] == s;
    assert SpanOut(s, delims) == n;
  }

  /** A delimiter separates the words before from those after. */
  lemma {:induction false} Separated(a: string, d: char, b: string, delims: string)
    requires d in delims
    ensures Tokens(a + [d] + b, delims) == Tokens(a, delims) + Tokens(b, delims)
    decreases |a|
  {
    hide Tokens;
    var s := a + [d] + b;
    if a == "" {
      assert s[1..] == b;
      SkipOne(s, delims);
      NoWords(delims);
    } else if a[0] in delims {
      assert s[1..] == a[1..] + [d] + b;
      SkipOne(s, delims);
      SkipOne(a, delims);
      Separated(a[1..], d, b, delims);
    } else {
      var n := SpanOut(a, delims);
      assert s[..n] == a[..n] && s[n..] == a[n..] + [d] + b;
      WordFirst(s, n, delims);
      WordFirst(a, n, delims);
      Separated(a[n..], d, b, delims);
    }
  }

  /** Cutting right before a delimiter separates as well. */
  lemma SeparatedAt(s: string, i: nat, delims: string)
    requires i <= |s| && (0 < i < |s| ==> s[i] in delims)
    ensures Tokens(s, delims) == Tokens(s[..i], delims) + Tokens(s[i..], delims)
  {
    if 0 < i < |s| {
      assert s == s[..i] + [s[i]] + s[i + 1..];
      Separated(s[..i], s[i], s[i + 1..], delims);
      assert s[i..][1..] == s[i + 1..];
      SkipOne(s[i..], delims);
    } else {
      assert s[..i] == s || s[i..] == s;
    }
  }

  function Total(ws: seq<string>): nat {
    if ws == [] then 0 else |ws[0]| + Total(ws[1..])
  }

  function NonDelims(s: string, delims: string): nat {
    if s == "" then 0 else (if s[0] in delims then 0 else 1) + NonDelims(s[1..], delims)
  }

  lemma {:induction false} NonDelimsAdd(a: string, b: string, delims: string)
    ensures NonDelims(a + b, delims) == NonDelims(a, delims) + NonDelims(b, delims)
  {
    if a == "" {
      assert a + b == b;
    } else {
      assert (a + b)[1..] == a[1..] + b;
      NonDelimsAdd(a[1..], b, delims);
    }
  }

  lemma NonDelimsSplit(s: string, i: nat, delims: string)
    requires i <= |s|
    ensures NonDelims(s, delims) == NonDelims(s[..i], delims) + NonDelims(s[i..], delims)
  {
    assert s == s[..i] + s[i..];
    NonDelimsAdd(s[..i], s[i..], delims);
  }

  lemma {:induction false} NonDelimsOf(s: string, delims: string)
    ensures (forall k :: 0 <= k < |s| ==> s[k] !in delims) ==> NonDelims(s, delims) == |s|
    ensures AllDelims(s, delims) <==> NonDelims(s, delims) == 0
  {
    if s != "" {
      NonDelimsOf(s[1..], delims);
      assert forall k :: 1 <= k < |s| ==> s[k] == s[1..][k - 1];
      assert AllDelims(s, delims) <==> s[0] in delims && AllDelims(s[1..], delims);
    }
  }

  lemma TotalCons(w: string, ws: seq<string>)
    ensures Total([w] + ws) == |w| + Total(ws)
  {
    assert ([w] + ws)[1..] == ws;
  }

  /** The words hold exactly the characters that are no delimiters. */
  lemma {:induction false} TokensTotal(s: string, delims: string)
    ensures Total(Tokens(s, delims)) == NonDelims(s, delims)
    decreases |s|
  {
    hide Tokens, Total, NonDelims;
    var a := SkipFrom(s, 0, delims);
    var b := StopFrom(s, a, delims);
    TokensFrom(s, 0, delims);
    assert s[0..] == s;
    NonDelimsSplit(s, a, delims);
    NonDelimsOf(s[..a], delims);
    if a == |s| {
      assert s[a..] == "";
      NonDelimsOf("", delims);
      TotalNone();
    } else {
      assert s[a..][..b - a] == s[a..b] && s[a..][b - a..] == s[b..];
      NonDelimsSplit(s[a..], b - a, delims);
      NonDelimsOf(s[a..b], delims);
      TokensTotal(s[b..], delims);
      assert |s[a..b]| == b - a;
      TotalCons(s[a..b], Tokens(s[b..], delims));
    }
  }

  lemma TotalNone()
    ensures Total([]) == 0
  {
  }

  /** Cutting off the front keeps the words exactly if nothing but delimiters is cut off. */
  lemma CutKeepsTokens(p: string, s: string, delims: string)
    ensures Tokens(p + s, delims) == Tokens(s, delims) <==> AllDelims(p, delims)
  {
    if AllDelims(p, delims) {
      SkipAll(p, s, delims);
    } else {
      TokensTotal(p + s, delims);
      TokensTotal(s, delims);
      NonDelimsAdd(p, s, delims);
      NonDelimsOf(p, delims);
    }
  }

  /** Join with a separator, unless one side is empty. */
  function Glue(a: string, sep: string, b: string): string {
    if a != "" && b != "" then a + sep + b else a + b
  }

  /** The first delimiter, as a string. */
  function Sep(delims: string): string {
    if delims == "" then "" else delims[..1]
  }

  lemma GlueTokens(a: string, b: string, delims: string)
    requires delims != "" || a == "" || b == ""
    ensures Tokens(Glue(a, Sep(delims), b), delims) == Tokens(a, delims) + Tokens(b, delims)
  {
    hide Tokens;
    if a != "" && b != "" {
      assert Sep(delims) == [delims[0]];
      Separated(a, delims[0], b, delims);
    } else {
      NoWords(delims);
      assert a + b == a || a + b == b;
    }
  }

  /** Without delimiters, everything is one word. */
  lemma NoDelims(s: string)
    ensures Tokens(s, "") == if s == "" then [] else [s]
  {
    if s != "" {
      WordFirst(s, |s|, "");
      assert s[|s|..] == "" && s[..|s|] == s;
    }
  }

  predicate IsFirstAt(ws: seq<string>, w: string, i: int) {
    0 <= i < |ws| && ws[i] == w && w !in ws[..i]
  }

  /** The scan came to position `i`, having seen the words `found`, and not the one it looks for. */
  ghost predicate Scanned(s: string, i: nat, found: seq<string>, w: string, delims: string) {
    && i <= |s| && w !in found
    && Tokens(s[..i], delims) == found && Tokens(s, delims) == found + Tokens(s[i..], delims)
    && (i > 0 ==> s[i - 1] !in delims) && (0 < i < |s| ==> s[i] in delims)
  }

  lemma ScanStart(s: string, w: string, delims: string)
    ensures Scanned(s, 0, [], w, delims)
  {
    assert s[0..] == s && s[..0] == "";
  }

  /** From a position on, the end of the run of delimiters. */
  function SkipFrom(s: string, i: nat, delims: string): (a: nat)
    requires i <= |s|
    ensures i <= a <= |s| && (forall k :: i <= k < a ==> s[k] in delims) && (a < |s| ==> s[a] !in delims)
    decreases |s| - i
  {
    if i < |s| && s[i] in delims then SkipFrom(s, i + 1, delims) else i
  }

  /** From a position on, the end of the run of other characters. */
  function StopFrom(s: string, i: nat, delims: string): (b: nat)
    requires i <= |s|
    ensures i <= b <= |s| && (forall k :: i <= k < b ==> s[k] !in delims) && (b < |s| ==> s[b] in delims)
    decreases |s| - i
  {
    if i < |s| && s[i] !in delims then StopFrom(s, i + 1, delims) else i
  }

  /** The words from a position on. */
  lemma TokensFrom(s: string, i: nat, delims: string)
    requires i <= |s|
    ensures var a := SkipFrom(s, i, delims); var b := StopFrom(s, a, delims);
            Tokens(s[i..], delims) == if a == |s| then [] else [s[a..b]] + Tokens(s[b..], delims)
    ensures StopFrom(s, SkipFrom(s, i, delims), delims) == SkipFrom(s, i, delims) ==> SkipFrom(s, i, delims) == |s|
  {
    hide Tokens;
    var a := SkipFrom(s, i, delims);
    var b := StopFrom(s, a, delims);
    hide SkipFrom, StopFrom;
    assert s[i..] == s[i..a] + s[a..];
    assert AllDelims(s[i..a], delims);
    SkipAll(s[i..a], s[a..], delims);
    if a == |s| {
      assert s[a..] == "";
      NoWords(delims);
    } else {
      assert s[a] !in delims && a < b;
      assert IsWord(s[a..b], delims) && s[a..] == s[a..b] + s[b..];
      hide IsWord, AllDelims;
      FirstOf(s[a..], s[a..b], s[b..], delims);
    }
  }

  lemma FirstOf(s: string, w: string, rest: string, delims: string)
    requires s == w + rest && IsWord(w, delims) && (rest != "" ==> rest[0] in delims)
    ensures Tokens(s, delims) == [w] + Tokens(rest, delims)
  {
    WordFirst(s, |w|, delims);
    assert s[..|w|] == w && s[|w|..] == rest;
  }

  /**
    One step of a scan for the word: it is found here, or the scan goes on behind it, or nothing is left. The empty word
    is found when delimiters follow the last word.
  */
  lemma ScanStep(s: string, i: nat, found: seq<string>, w: string, delims: string)
    requires Scanned(s, i, found, w, delims) && i < |s|
    ensures var a := SkipFrom(s, i, delims); var b := StopFrom(s, a, delims);
            && (s[a..b] == w ==> FoundHere(s, i, |found|, w, b, delims))
            && (s[a..b] != w ==>
                  if b < |s| then Scanned(s, b, found + [s[a..b]], w, delims) else !Contains(s, w, delims))
            && i < b
  {
    hide Tokens, Scanned, FoundHere, Contains;
    var a := SkipFrom(s, i, delims);
    var b := StopFrom(s, a, delims);
    TokensFrom(s, i, delims);
    if a == |s| {
      assert s[a..b] == "";
      ScanTail(s, i, found, w, delims);
    } else if s[a..b] != w {
      ScanNext(s, i, found, w, delims, a, b);
      if b == |s| {
        ScanEnd(s, found + [s[a..b]], w, delims);
      }
    } else {
      ScanFound(s, i, found, w, b, delims);
    }
  }

  lemma ScanTail(s: string, i: nat, found: seq<string>, w: string, delims: string)
    requires Scanned(s, i, found, w, delims) && i < |s| && Tokens(s[i..], delims) == [] && s[|s| - 1] in delims
    ensures if w == "" then FoundHere(s, i, |found|, w, |s|, delims) else !Contains(s, w, delims)
  {
    hide Tokens;
    assert s[|s|..] == "";
    NoWords(delims);
  }

  lemma ScanEnd(s: string, found: seq<string>, w: string, delims: string)
    requires Scanned(s, |s|, found, w, delims) && s != ""
    ensures !Contains(s, w, delims)
  {
    hide Tokens;
    assert s[..|s|] == s;
  }

  lemma ScanFound(s: string, i: nat, found: seq<string>, w: string, b: nat, delims: string)
    requires Scanned(s, i, found, w, delims) && i <= b <= |s| && w != ""
    requires Tokens(s[i..], delims) == [w] + Tokens(s[b..], delims)
    ensures FoundHere(s, i, |found|, w, b, delims)
  {
    hide Tokens;
    var rest := Tokens(s[b..], delims);
    Associated(found, [w], rest);
    assert (found + [w] + rest)[|found|] == w && (found + [w] + rest)[..|found|] == found;
  }

  lemma Associated<T>(a: seq<T>, b: seq<T>, c: seq<T>)
    ensures a + (b + c) == a + b + c
  {
  }

  /** The word was found in `s[..b]` behind the position `i` where the words before end. */
  ghost predicate FoundHere(s: string, i: nat, n: nat, w: string, b: nat, delims: string) {
    && i <= b <= |s| && |Tokens(s[..i], delims)| == n
    && Contains(s, w, delims) && FirstAt(s, w, delims, n)
    && Tokens(s, delims) == Tokens(s[..i], delims) + (if w == "" then [] else [w]) + Tokens(s[b..], delims)
  }

  /** The word stands between the words of `s[..i]` and those of `s[b..]`; the empty word comes last. */
  ghost predicate SplitHere(s: string, i: nat, n: nat, w: string, b: nat, delims: string) {
    && i <= b <= |s| && |Tokens(s[..i], delims)| == n
    && Tokens(s, delims) == Tokens(s[..i], delims) + (if w == "" then [] else [w]) + Tokens(s[b..], delims)
    && (w == "" ==> n == |Tokens(s, delims)|)
  }

  /** `find` and `replace` take the empty word to be there if delimiters follow the last word. */
  predicate Contains(list: string, w: string, delims: string) {
    if w == "" then EndsInDelim(list, delims) else w in Tokens(list, delims)
  }

  /** The first position of the word, where the empty word comes last. */
  predicate FirstAt(list: string, w: string, delims: string, i: nat) {
    if w == "" then i == |Tokens(list, delims)| else IsFirstAt(Tokens(list, delims), w, i)
  }

  lemma ScanNext(s: string, i: nat, found: seq<string>, w: string, delims: string, a: nat, b: nat)
    requires Scanned(s, i, found, w, delims) && i <= a < b <= |s| && s[a..b] != w
    requires Tokens(s[i..], delims) == [s[a..b]] + Tokens(s[b..], delims)
    requires (forall k :: a <= k < b ==> s[k] !in delims) && (b < |s| ==> s[b] in delims)
    ensures Scanned(s, b, found + [s[a..b]], w, delims)
  {
    hide Tokens;
    SeparatedAt(s, b, delims);
    assert Tokens(s, delims) == found + [s[a..b]] + Tokens(s[b..], delims);
    Cancel(Tokens(s[..b], delims), found + [s[a..b]], Tokens(s[b..], delims));
  }

  lemma Cancel<T>(a: seq<T>, b: seq<T>, c: seq<T>)
    requires a + c == b + c
    ensures a == b
  {
    assert |a| == |b|;
    assert a == (a + c)[..|a|] && b == (b + c)[..|b|];
  }

  /** The list with word number `i` replaced by others; for `i` at the end, these are appended. */
  function Spliced(ws: seq<string>, i: nat, others: seq<string>): seq<string>
    requires i <= |ws|
  {
    ws[..i] + others + if i < |ws| then ws[i + 1..] else []
  }

  /** Between `left` and `right`, a list is replaced by up to two strings. */
  function Edited(list: string, left: nat, right: nat, s1: string, s2: string, delims: string): string
    requires left <= right <= |list|
  {
    Glue(Glue(Glue(list[..left], Sep(delims), s1), Sep(delims), s2), Sep(delims), list[right..])
  }

  lemma GluedTokens(a: string, s1: string, s2: string, c: string, delims: string)
    requires delims != "" || (a == "" && c == "" && (s1 == "" || s2 == ""))
    ensures Tokens(Glue(Glue(Glue(a, Sep(delims), s1), Sep(delims), s2), Sep(delims), c), delims)
            == Tokens(a, delims) + (Tokens(s1, delims) + Tokens(s2, delims)) + Tokens(c, delims)
  {
    hide Tokens, Sep;
    GlueTokens(a, s1, delims);
    GlueTokens(Glue(a, Sep(delims), s1), s2, delims);
    GlueTokens(Glue(Glue(a, Sep(delims), s1), Sep(delims), s2), c, delims);
  }

  /** Without delimiters, the two strings end up as a single word. */
  lemma MergedTokens(s1: string, s2: string)
    requires s1 != "" && s2 != ""
    ensures |Tokens(Glue(Glue(Glue("", "", s1), "", s2), "", ""), "")| == 1
    ensures |Tokens(s1, "") + Tokens(s2, "")| == 2
  {
    hide Tokens;
    assert "" + s1 == s1 && s1 + "" == s1 && s1 + s2 + "" == s1 + s2;
    NoDelims(s1 + s2);
    NoDelims(s1);
    NoDelims(s2);
  }

  /**
    Editing the string amounts to editing the words, exactly unless two strings are to be joined without a delimiter.
  */
  lemma EditedTokens(list: string, left: nat, n: nat, w: string, b: nat, right: nat, s1: string, s2: string,
                     delims: string)
    requires SplitHere(list, left, n, w, b, delims) && right == SkipFrom(list, b, delims)
    requires delims == "" ==> left == 0 && right == |list|
    ensures n <= |Tokens(list, delims)|
    ensures Tokens(Edited(list, left, right, s1, s2, delims), delims) ==
              Spliced(Tokens(list, delims), n, Tokens(s1, delims) + Tokens(s2, delims))
            <==> delims != "" || s1 == "" || s2 == ""
  {
    hide Tokens, Glue, Sep, Spliced;
    var a, c, others := list[..left], list[right..], Tokens(s1, delims) + Tokens(s2, delims);
    assert list[b..] == list[b..right] + c;
    SkipAll(list[b..right], c, delims);
    SplicedAt(Tokens(list, delims), Tokens(a, delims), if w == "" then [] else [w], Tokens(c, delims), others);
    if delims != "" || s1 == "" || s2 == "" {
      GluedTokens(a, s1, s2, c, delims);
    } else {
      assert a == "" && c == "" && Sep(delims) == "" by { NoSep(); }
      MergedTokens(s1, s2);
    }
  }

  lemma NoSep()
    ensures Sep("") == ""
  {
  }

  lemma SplicedAt(ws: seq<string>, before: seq<string>, mid: seq<string>, after: seq<string>, others: seq<string>)
    requires ws == before + mid + after && (|mid| == 1 || (mid == [] && after == []))
    ensures |before| <= |ws| && Spliced(ws, |before|, others) == before + others + after
  {
  }

  lemma {:induction false} WordsAreParts(s: string, t: string, delims: string)
    requires t in Tokens(s, delims)
    ensures |t| <= |s|
    decreases |s|
  {
    var rest := s[SpanIn(s, delims)..];
    var n := SpanOut(rest, delims);
    if t != rest[..n] {
      WordsAreParts(rest[n..], t, delims);
    }
  }

  /** Behind something that does not end in a delimiter, a string is no word of its own. */
  lemma {:induction false} NotAWord(a: string, x: string, rest: string, delims: string)
    requires a != "" && a[|a| - 1] !in delims && IsWord(x, delims) && (rest != "" ==> rest[0] in delims)
    requires |a| < |x| && |rest| < |x|
    ensures x !in Tokens(a + x + rest, delims)
    decreases |a|
  {
    hide Tokens;
    var s, n := a + x + rest, SpanOut(a, delims);
    if a[0] in delims {
      assert s[1..] == a[1..] + x + rest;
      SkipOne(s, delims);
      NotAWord(a[1..], x, rest, delims);
    } else if n < |a| {
      assert s[..n] == a[..n] && s[n..] == a[n..] + x + rest;
      WordFirst(s, n, delims);
      NotAWord(a[n..], x, rest, delims);
    } else {
      FirstOf(s, a + x, rest, delims);
      if x in Tokens(rest, delims) {
        WordsAreParts(rest, x, delims);
      }
    }
  }

  lemma {:induction false} SkipFromBehind(p: string, s: string, i: nat, delims: string)
    requires i <= |s|
    ensures SkipFrom(p + s, |p| + i, delims) == |p| + SkipFrom(s, i, delims)
    decreases |s| - i
  {
    if i < |s| && s[i] in delims {
      SkipFromBehind(p, s, i + 1, delims);
    }
  }

  /** What stands in front of something that is not empty stays there. */
  lemma GlueBehind(p: string, a: string, sep: string, b: string)
    requires a != ""
    ensures Glue(p + a, sep, b) == p + Glue(a, sep, b) && Glue(a, sep, b) != ""
  {
    if b != "" {
      assert p + a + sep + b == p + (a + sep + b);
    } else {
      assert p + a + b == p + (a + b);
    }
  }

  lemma EditedBehind(p: string, s: string, left: nat, right: nat, s1: string, s2: string, delims: string)
    requires 0 < left <= right <= |s|
    ensures Edited(p + s, |p| + left, |p| + right, s1, s2, delims) == p + Edited(s, left, right, s1, s2, delims)
  {
    var sep := Sep(delims);
    assert (p + s)[..|p| + left] == p + s[..left] && (p + s)[|p| + right..] == s[right..];
    hide Glue;
    GlueBehind(p, s[..left], sep, s1);
    GlueBehind(p, Glue(s[..left], sep, s1), sep, s2);
    GlueBehind(p, Glue(Glue(s[..left], sep, s1), sep, s2), sep, s[right..]);
  }

  /** A delimiter at the end of the front separates. */
  lemma SeparatedFront(p: string, s: string, delims: string)
    requires EndsInDelim(p, delims)
    ensures Tokens(p + s, delims) == Tokens(p, delims) + Tokens(s, delims)
  {
    hide Tokens;
    var front, d := p[..|p| - 1], p[|p| - 1];
    assert p == front + [d] && front + [d] + "" == p;
    Separated(front, d, s, delims);
    Separated(front, d, "", delims);
    NoWords(delims);
  }

  // ---- the text, character by character

  /** One character between two parts that are both there, unless there are no delimiters. */
  function Joint(between: bool, delims: string): nat {
    if between && delims != "" then 1 else 0
  }

  lemma GlueText(a: string, b: string, delims: string)
    ensures var o := |a| + Joint(a != "" && b != "", delims); var r := Glue(a, Sep(delims), b);
      && |r| == o + |b| && r[..|a|] == a && r[o..] == b && (forall k :: |a| <= k < o ==> r[k] == delims[0])
  {
  }

  /** All text is kept in its order, with the first delimiter between the parts that are not empty. */
  lemma EditedText(s: string, left: nat, right: nat, s1: string, s2: string, delims: string)
    requires left <= right <= |s|
    ensures var r := Edited(s, left, right, s1, s2, delims);
      var o1 := left + Joint(left > 0 && s1 != "", delims); var e1 := o1 + |s1|;
      var o2 := e1 + Joint((left > 0 || s1 != "") && s2 != "", delims); var e2 := o2 + |s2|;
      var o3 := e2 + Joint((left > 0 || s1 != "" || s2 != "") && right < |s|, delims);
      && |r| == o3 + (|s| - right)
      && r[..left] == s[..left] && r[o1..e1] == s1 && r[o2..e2] == s2 && r[o3..] == s[right..]
      && forall k :: left <= k < o1 || e1 <= k < o2 || e2 <= k < o3 ==> r[k] == delims[0]
  {
    hide Glue, Sep;
    var p, c := s[..left], s[right..];
    var a := Glue(p, Sep(delims), s1);
    var b := Glue(a, Sep(delims), s2);
    GlueText(p, s1, delims);
    GlueText(a, s2, delims);
    GlueText(b, c, delims);
    var r := Glue(b, Sep(delims), c);
    assert r == Edited(s, left, right, s1, s2, delims);
    assert forall k :: 0 <= k < |a| ==> a[k] == b[..|a|][k];
    assert forall k :: 0 <= k < |b| ==> b[k] == r[..|b|][k];
    assert forall k :: 0 <= k < |s1| ==> s1[k] == a[|a| - |s1|..][k];
    assert forall k :: 0 <= k < |s2| ==> s2[k] == b[|b| - |s2|..][k];
  }
}
