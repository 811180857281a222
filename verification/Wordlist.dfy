/**
  Editing lists of words that are stored as a single string under a configuration key. Each operation works on the
  string in place, and amounts to an operation on the sequence of words.
*/
module Wordlist {
  import opened WordTokens

  datatype Option<T> = None | Some(value: T)

  const MaxUnsigned: nat := 0xFFFF_FFFF

  /** Skipped at the start of a list when replacing a word, whatever the delimiters in use. */
  const Blanks: string := " \t,;"

  function OrEmpty(s: Option<string>): string {
    match s case None => "" case Some(v) => v
  }

  /** The part of a list that is searched for a word to replace. */
  function Searched(list: string): string {
    list[SkipFrom(list, 0, Blanks)..]
  }

  function Nth(ws: seq<string>, n: nat): Option<string> {
    if n < |ws| then Some(ws[n]) else None
  }

  /** The `n`-th word from here is the next one, or one less from the position behind it. */
  lemma NthStep(s: string, i: nat, n: nat, delims: string)
    requires i <= |s|
    ensures var a := SkipFrom(s, i, delims); var b := StopFrom(s, a, delims);
            && (a == |s| ==> b == |s|) && (a < |s| ==> i < b)
            && Nth(Tokens(s[i..], delims), n) ==
                 (if a == |s| then None else if n == 0 then Some(s[a..b]) else Nth(Tokens(s[b..], delims), n - 1))
            && (b == |s| ==> Tokens(s[b..], delims) == [])
  {
    hide Tokens;
    TokensFrom(s, i, delims);
    var b := StopFrom(s, SkipFrom(s, i, delims), delims);
    if b == |s| {
      assert s[b..] == "";
      NoWords(delims);
    }
  }

  /** The word is the first one of its kind, and comes behind `left`; delimiters follow it up to `right`. */
  ghost predicate Located(s: string, w: string, delims: string, at: nat, left: nat, right: nat) {
    && left < |s| && left <= right <= |s| && FirstAt(s, w, delims, at)
    && (exists b :: SplitHere(s, left, at, w, b, delims) && SkipFrom(s, b, delims) == right)
    && (0 < left ==> s[left - 1] !in delims && s[left] in delims)
    && (delims == "" ==> left == 0 && right == |s|)
  }

  /** The new list `r` keeps all characters but for the text around the word, where the other strings go. */
  ghost predicate Replaced(list: string, w: string, s1: string, s2: string, delims: string, r: string, at: nat,
                           left: nat, right: nat) {
    var start := SkipFrom(list, 0, Blanks);
    var s := list[start..];
    && Located(s, w, delims, at, left, right) && at <= |Tokens(s, delims)|
    && r == list[..start] + Edited(s, left, right, s1, s2, delims)
    && (Tokens(Edited(s, left, right, s1, s2, delims), delims) ==
          Spliced(Tokens(s, delims), at, Tokens(s1, delims) + Tokens(s2, delims))
        <==> delims != "" || s1 == "" || s2 == "")
  }

  /**
    The new list `r` is the old text, the first delimiter if there are words before, and then `w`. Its words are those
    of the old one and the words of `w`.
  */
  ghost predicate Appended(list: string, w: string, delims: string, r: string) {
    && r == list + (if delims != "" && Tokens(list, delims) != [] then [delims[0]] else "") + w
    && (IsWord(w, delims) ==>
          (Tokens(r, delims) == Tokens(list, delims) + [w] <==> delims != "" || list == ""))
    && (delims != "" ==> Tokens(r, delims) == Tokens(list, delims) + Tokens(w, delims))
  }

  lemma NothingToFind(w: string, delims: string)
    ensures !Contains("", w, delims)
  {
  }

  lemma FoundIsThere(list: string, w: string, b: nat, delims: string)
    requires exists i, n :: FoundHere(list, i, n, w, b, delims)
    ensures w != "" ==> w in Tokens(list, delims)
  {
  }

  lemma AppendedTokens(list: string, w: string, delims: string)
    requires w != ""
    ensures Appended(list, w, delims, list + (if SkipFrom(list, 0, delims) < |list| then Sep(delims) else "") + w)
  {
    hide Tokens, IsWord;
    var sep := if SkipFrom(list, 0, delims) < |list| then Sep(delims) else "";
    NoWords(delims);
    TokensFrom(list, 0, delims);
    assert list[0..] == list;
    if IsWord(w, delims) {
      SingleWord(w, delims);
    }
    if sep != "" {
      assert sep == [delims[0]];
      Separated(list, delims[0], w, delims);
    } else if SkipFrom(list, 0, delims) == |list| {
      assert list + sep == list && list + "" == list;
      SkipAll(list, w, delims);
      SkipAll(list, "", delims);
    } else {
      assert delims == "" && list + sep == list;
      JoinedWithout(list, w);
    }
  }

  lemma SingleWord(w: string, delims: string)
    requires IsWord(w, delims)
    ensures Tokens(w, delims) == [w]
  {
    FirstOf(w, w, "", delims);
  }

  /** Without delimiters, two words become one. */
  lemma JoinedWithout(a: string, b: string)
    requires a != "" && b != ""
    ensures Tokens(a + b, "") != Tokens(a, "") + [b]
  {
    NoDelims(a + b);
    NoDelims(a);
  }

  lemma GlueIs(a: string, sep: string, b: string)
    ensures Glue(a, sep, b) == a + (if a != "" && b != "" then sep else "") + b
  {
    assert a + "" == a;
  }

  lemma Nested(head: string, p: string, q1: string, s1: string, q2: string, s2: string, q3: string, c: string)
    ensures head + p + q1 + s1 + q2 + s2 + q3 + c == head + (p + q1 + s1 + q2 + s2 + q3 + c)
  {
  }

  /** The new text, put together piece by piece with separators where they are due. */
  function PutTogether(head: string, s: string, left: nat, right: nat, s1: string, s2: string, sep: string): string
    requires left <= right <= |s|
  {
    head + s[..left]
      + (if left > 0 && s1 != "" then sep else "") + s1
      + (if (left > 0 || s1 != "") && s2 != "" then sep else "") + s2
      + (if (left > 0 || s1 != "" || s2 != "") && right < |s| then sep else "") + s[right..]
  }

  /** The corner cases amount to joining the parts one by one, where empty ones do not count. */
  lemma SpelledOut(head: string, s: string, left: nat, right: nat, s1: string, s2: string, delims: string)
    requires left <= right <= |s|
    ensures PutTogether(head, s, left, right, s1, s2, Sep(delims)) == head + Edited(s, left, right, s1, s2, delims)
  {
    var p, c, sep := s[..left], s[right..], Sep(delims);
    var a := Glue(p, sep, s1);
    var b := Glue(a, sep, s2);
    assert Edited(s, left, right, s1, s2, delims) == Glue(b, sep, c);
    assert (p != "" <==> left > 0) && (c != "" <==> right < |s|);
    assert (a != "" <==> left > 0 || s1 != "") && (b != "" <==> left > 0 || s1 != "" || s2 != "");
    hide Glue, Edited, Sep;
    GlueIs(p, sep, s1);
    GlueIs(a, sep, s2);
    GlueIs(b, sep, c);
    var q1 := if left > 0 && s1 != "" then sep else "";
    var q2 := if (left > 0 || s1 != "") && s2 != "" then sep else "";
    var q3 := if (left > 0 || s1 != "" || s2 != "") && right < |s| then sep else "";
    Nested(head, p, q1, s1, q2, s2, q3, c);
  }

  lemma NoDelimsWhole(s: string, i: nat, found: seq<string>, w: string, delims: string)
    requires Scanned(s, i, found, w, delims) && i < |s|
    ensures delims == "" ==>
              i == 0 && forall b :: 0 <= b <= |s| && StopFrom(s, 0, delims) <= b ==> SkipFrom(s, b, delims) == |s|
  {
  }

  lemma ReplacedHere(list: string, start: nat, left: nat, b: nat, found: seq<string>, w: string, s1: string,
                     s2: string, delims: string)
    requires start == SkipFrom(list, 0, Blanks) && left < |list[start..]|
    requires FoundHere(list[start..], left, |found|, w, b, delims)
    requires Scanned(list[start..], left, found, w, delims) && StopFrom(list[start..], left, delims) <= b
    ensures var s := list[start..]; var right := SkipFrom(s, b, delims);
      && Contains(s, w, delims)
      && Replaced(list, w, s1, s2, delims, PutTogether(list[..start], s, left, right, s1, s2, Sep(delims)),
                  |found|, left, right)
  {
    hide Tokens, Edited, PutTogether, Contains, Spliced, FirstAt;
    var s := list[start..];
    NoDelimsWhole(s, left, found, w, delims);
    SpelledOut(list[..start], s, left, SkipFrom(s, b, delims), s1, s2, delims);
    assert SplitHere(s, left, |found|, w, b, delims) by { FoundIsSplit(s, left, |found|, w, b, delims); }
    EditedTokens(s, left, |found|, w, b, SkipFrom(s, b, delims), s1, s2, delims);
  }

  lemma FoundIsSplit(s: string, i: nat, n: nat, w: string, b: nat, delims: string)
    requires FoundHere(s, i, n, w, b, delims)
    ensures SplitHere(s, i, n, w, b, delims) && FirstAt(s, w, delims, n)
  {
    hide Tokens;
  }

  // ---- replacing in the whole list

  /** The new list `r` has the words of the old one, with others in place of the first `w`. */
  ghost predicate ReplacedAll(list: string, w: string, s1: string, s2: string, delims: string, r: string) {
    exists i: nat :: FirstAt(list, w, delims, i) && i <= |Tokens(list, delims)|
      && Tokens(r, delims) == Spliced(Tokens(list, delims), i, Tokens(s1, delims) + Tokens(s2, delims))
  }

  /** The index in the whole list of word number `at` of the part that is searched. */
  function InList(list: string, delims: string, at: nat): int {
    |Tokens(list, delims)| - |Tokens(Searched(list), delims)| + at
  }

  /** Where the word stands in the whole list. */
  ghost predicate StandsAt(ws: seq<string>, w: string, n: int) {
    0 <= n <= |ws| && if w == "" then n == |ws| else n < |ws| && ws[n] == w
  }

  lemma SplicedBehind(front: seq<string>, ws: seq<string>, i: nat, others: seq<string>)
    requires i <= |ws|
    ensures Spliced(front + ws, |front| + i, others) == front + Spliced(ws, i, others)
  {
    assert (front + ws)[..|front| + i] == front + ws[..i];
    assert i < |ws| ==> (front + ws)[|front| + i + 1..] == ws[i + 1..];
  }

  /** The edit as one of the whole list, if the word has words of the searched part in front of it. */
  lemma SplitInList(pre: string, s: string, w: string, delims: string, at: nat, left: nat, b: nat, n: nat)
    requires SplitHere(s, left, at, w, b, delims) && 0 < left < |s| && s[left] in delims
    requires n == |Tokens(pre + s[..left], delims)|
    ensures SplitHere(pre + s, |pre| + left, n, w, |pre| + b, delims)
    ensures n - at == |Tokens(pre + s, delims)| - |Tokens(s, delims)|
  {
    hide Tokens;
    var list := pre + s;
    var x, y := Tokens(s[..left], delims), Tokens(s[left..], delims);
    SeparatedAt(s, left, delims);
    SeparatedAt(list, |pre| + left, delims);
    assert list[..|pre| + left] == pre + s[..left] && list[|pre| + left..] == s[left..];
    assert list[|pre| + b..] == s[b..];
    var z := (if w == "" then [] else [w]) + Tokens(s[b..], delims);
    assert x + y == x + z;
    assert y == z by {
      assert y == (x + y)[|x|..] && z == (x + z)[|x|..];
    }
    assert Tokens(list, delims) == Tokens(pre + s[..left], delims) + z;
  }

  /** The words `rs` are those of `ws` with others in place of `w` at index `n`. */
  ghost predicate EditsAt(ws: seq<string>, w: string, n: int, others: seq<string>, rs: seq<string>) {
    StandsAt(ws, w, n) && rs == Spliced(ws, n, others)
  }

  lemma EditedInList(pre: string, s: string, w: string, delims: string, at: nat, left: nat, right: nat,
                     s1: string, s2: string)
    requires left <= right <= |s| && Located(s, w, delims, at, left, right)
    requires delims != "" || s1 == "" || s2 == ""
    requires AllDelims(pre, delims) || EndsInDelim(pre, delims) || 0 < at
    ensures EditsAt(Tokens(pre + s, delims), w, |Tokens(pre + s, delims)| - |Tokens(s, delims)| + at,
                    Tokens(s1, delims) + Tokens(s2, delims),
                    Tokens(pre + Edited(s, left, right, s1, s2, delims), delims))
  {
    hide Tokens, Edited, Spliced;
    var b :| SplitHere(s, left, at, w, b, delims) && SkipFrom(s, b, delims) == right;
    var e, others := Edited(s, left, right, s1, s2, delims), Tokens(s1, delims) + Tokens(s2, delims);
    EditedTokens(s, left, at, w, b, right, s1, s2, delims);
    if AllDelims(pre, delims) {
      SkipAll(pre, s, delims);
      SkipAll(pre, e, delims);
    } else if EndsInDelim(pre, delims) {
      SeparatedFront(pre, s, delims);
      SeparatedFront(pre, e, delims);
      SplicedBehind(Tokens(pre, delims), Tokens(s, delims), at, others);
    } else {
      assert 0 < left by { WordsInFront(s, left, delims); }
      var n := |Tokens(pre + s[..left], delims)|;
      SplitInList(pre, s, w, delims, at, left, b, n);
      SkipFromBehind(pre, s, b, delims);
      EditedTokens(pre + s, |pre| + left, n, w, |pre| + b, |pre| + right, s1, s2, delims);
      EditedBehind(pre, s, left, right, s1, s2, delims);
    }
  }

  lemma LocatedWithin(s: string, w: string, delims: string, at: nat, left: nat, right: nat)
    requires Located(s, w, delims, at, left, right)
    ensures left <= right <= |s|
  {
  }

  lemma WordsInFront(s: string, left: nat, delims: string)
    requires left <= |s| && 0 < |Tokens(s[..left], delims)|
    ensures 0 < left
  {
  }

  lemma ReplacedFirst(list: string, pre: string, w: string, delims: string, at: nat, left: nat, right: nat,
                      s1: string, s2: string)
    requires pre == list[..SkipFrom(list, 0, Blanks)] && Located(Searched(list), w, delims, at, left, right)
    requires delims != "" || s1 == "" || s2 == ""
    requires || AllDelims(pre, delims)
             || ((EndsInDelim(pre, delims) || 0 < at) && FirstInList(list, w, delims, InList(list, delims, at)))
    ensures ReplacedAll(list, w, s1, s2, delims, pre + Edited(Searched(list), left, right, s1, s2, delims))
  {
    hide Tokens, Edited, Spliced;
    assert list == pre + Searched(list);
    EditedInList(pre, Searched(list), w, delims, at, left, right, s1, s2);
    if AllDelims(pre, delims) {
      SkipAll(pre, Searched(list), delims);
    }
    assert FirstAt(list, w, delims, InList(list, delims, at));
  }

  /** If the word found is not the first one of its kind in the whole list, replacing it is not replacing the first. */
  lemma ReplacedLater(list: string, pre: string, w: string, delims: string, at: nat, left: nat, right: nat)
    returns (x: string)
    requires pre == list[..SkipFrom(list, 0, Blanks)] && Located(Searched(list), w, delims, at, left, right)
    requires AllDelims(pre, delims) || EndsInDelim(pre, delims) || 0 < at
    requires !FirstInList(list, w, delims, InList(list, delims, at))
    ensures !ReplacedAll(list, w, x, "", delims, pre + Edited(Searched(list), left, right, x, "", delims))
  {
    hide Tokens, Edited, Spliced;
    var ws, n := Tokens(list, delims), InList(list, delims, at);
    assert list == pre + Searched(list);
    EditedInList(pre, Searched(list), w, delims, at, left, right, "", "");
    assert w != "" && IsWord(w, delims);
    x := w + [w[0]];
    SingleWord(x, delims);
    NoWords(delims);
    assert [x] + [] == [x];
    EditedInList(pre, Searched(list), w, delims, at, left, right, x, "");
    forall i: nat | FirstAt(list, w, delims, i) && i <= |ws| ensures Spliced(ws, i, [x]) != Spliced(ws, n, [x]) {
      SplicedEarlier(ws, i, n, x);
    }
  }

  lemma SplicedEarlier(ws: seq<string>, i: nat, n: nat, x: string)
    requires i < n <= |ws| && ws[i] != x
    ensures Spliced(ws, i, [x]) != Spliced(ws, n, [x])
  {
    assert Spliced(ws, i, [x])[i] == x && Spliced(ws, n, [x])[i] == ws[i];
  }

  /** If the text in front does not end in a delimiter, what comes next is not a word of its own. */
  lemma ReplacedMerged(list: string, pre: string, w: string, delims: string, left: nat, right: nat)
    returns (x: string)
    requires pre == list[..SkipFrom(list, 0, Blanks)] && Located(Searched(list), w, delims, 0, left, right)
    requires !AllDelims(pre, delims) && !EndsInDelim(pre, delims)
    ensures !ReplacedAll(list, w, x, "", delims, pre + Edited(Searched(list), left, right, x, "", delims))
  {
    hide Tokens;
    var s, c := Searched(list), pre[|pre| - 1];
    x := seq(|list| + 2, _ => c);
    assert left == 0 by { NoWordsInFront(s, w, delims, left, right); }
    var rest := (if s[right..] != "" then Sep(delims) else "") + s[right..];
    assert Edited(s, left, right, x, "", delims) == x + rest by { EditedAtStart(s, right, x, delims); }
    assert list == pre + s;
    assert pre + (x + rest) == pre + x + rest;
    NotAWord(pre, x, rest, delims);
    SingleWord(x, delims);
    NoWords(delims);
    assert [x] + [] == [x];
    forall i: nat | i <= |Tokens(list, delims)| ensures x in Spliced(Tokens(list, delims), i, [x]) {
      assert Spliced(Tokens(list, delims), i, [x])[i] == x;
    }
  }

  lemma NoWordsInFront(s: string, w: string, delims: string, left: nat, right: nat)
    requires Located(s, w, delims, 0, left, right)
    ensures left == 0
  {
    if 0 < left {
      assert s[..left][left - 1] !in delims;
      NonDelimsOf(s[..left], delims);
      TokensTotal(s[..left], delims);
      TotalNone();
    }
  }

  lemma EditedAtStart(s: string, right: nat, x: string, delims: string)
    requires right <= |s| && x != ""
    ensures Edited(s, 0, right, x, "", delims) == x + ((if s[right..] != "" then Sep(delims) else "") + s[right..])
  {
    assert s[..0] == "" && "" + x == x && x + "" == x;
    GlueIs(x, Sep(delims), s[right..]);
  }

  /**
    Replacing works on the words of the whole list, for all substitutes, exactly if the blanks skipped at its start are
    delimiters, or else end in one or the word found is not the first one of the rest; and it is the first one of its
    kind in the whole list.
  */
  lemma ReplacedInWholeList(list: string, w: string, delims: string, at: nat, left: nat, right: nat)
    requires Located(Searched(list), w, delims, at, left, right)
    ensures var pre := list[..SkipFrom(list, 0, Blanks)];
      (forall s1, s2 :: delims != "" || s1 == "" || s2 == "" ==>
         ReplacedAll(list, w, s1, s2, delims, pre + Edited(Searched(list), left, right, s1, s2, delims)))
      <==> || AllDelims(pre, delims)
           || ((EndsInDelim(pre, delims) || 0 < at) && FirstInList(list, w, delims, InList(list, delims, at)))
  {
    hide Tokens, SkipFrom, Located, Edited, ReplacedAll, FirstAt;
    var pre, s := list[..SkipFrom(list, 0, Blanks)], Searched(list);
    assert list == pre + s;
    var n := InList(list, delims, at);
    if AllDelims(pre, delims) || EndsInDelim(pre, delims) || 0 < at {
      if AllDelims(pre, delims) || FirstInList(list, w, delims, n) {
        assert left <= right <= |s| by { LocatedWithin(s, w, delims, at, left, right); }
        forall s1, s2 | delims != "" || s1 == "" || s2 == ""
          ensures ReplacedAll(list, w, s1, s2, delims, pre + Edited(s, left, right, s1, s2, delims))
        {
          ReplacedFirst(list, pre, w, delims, at, left, right, s1, s2);
        }
      } else {
        var x := ReplacedLater(list, pre, w, delims, at, left, right);
      }
    } else {
      var x := ReplacedMerged(list, pre, w, delims, left, right);
    }
  }

  predicate FirstInList(list: string, w: string, delims: string, i: int) {
    0 <= i && FirstAt(list, w, delims, i)
  }

  /** What is skipped are blanks, tabs, commas and semicolons at the start, all of them. */
  lemma SkippedText(list: string)
    ensures var pre := list[..SkipFrom(list, 0, Blanks)]; var s := Searched(list);
      && list == pre + s && (forall k :: 0 <= k < |pre| ==> pre[k] in {' ', '\t', ',', ';'})
      && (s != "" ==> s[0] !in {' ', '\t', ',', ';'})
  {
    forall c: char ensures c in Blanks <==> c in {' ', '\t', ',', ';'} {
      assert Blanks[0] == ' ' && Blanks[1] == '\t' && Blanks[2] == ',' && Blanks[3] == ';' && |Blanks| == 4;
    }
  }

  /** The words searched are those of the list exactly if the blanks skipped at its start are delimiters. */
  lemma SearchesTheWords(list: string, delims: string)
    ensures Tokens(Searched(list), delims) == Tokens(list, delims)
       <==> AllDelims(list[..SkipFrom(list, 0, Blanks)], delims)
  {
    var start := SkipFrom(list, 0, Blanks);
    assert list == list[..start] + list[start..];
    CutKeepsTokens(list[..start], list[start..], delims);
  }

  /** With other delimiters a word of the list may not be found: a blank at the start is part of the first word. */
  lemma BlankIsSkipped()
    ensures Tokens(" a:b", ":") == [" a", "b"] && Tokens(Searched(" a:b"), ":") == ["a", "b"]
  {
    hide Tokens;
    var list := " a:b";
    NoWords(":");
    FirstOf(" a", " a", "", ":");
    FirstOf("a", "a", "", ":");
    FirstOf("b", "b", "", ":");
    Separated(" a", ':', "b", ":");
    Separated("a", ':', "b", ":");
    assert list == " a" + [':'] + "b";
    BlankAt(list);
    assert list[1..] == "a" + [':'] + "b";
  }

  lemma BlankAt(list: string)
    requires |list| > 1 && list[0] == ' ' && list[1] == 'a'
    ensures SkipFrom(list, 0, Blanks) == 1
  {
    assert Blanks[0] == ' ';
    assert 'a' !in Blanks;
    assert SkipFrom(list, 1, Blanks) == 1;
  }

  class Config {
    /** The stored values; a key may exist or not. */
    var entries: map<string, string>
    /** Whether storing a value succeeds. */
    var writable: bool

    constructor (entries: map<string, string>, writable: bool)
      ensures this.entries == entries && this.writable == writable
    {
      this.entries, this.writable := entries, writable;
    }

    method Set(key: string, value: string) returns (ok: bool)
      modifies this`entries
      ensures ok == writable && entries == if ok then old(entries)[key := value] else old(entries)
    {
      if writable {
        entries := entries[key := value];
      }
      ok := writable;
    }

    /** The word at index `nth`, if there is one. */
    method GetNth(key: string, nth: nat, delims: string) returns (r: Option<string>)
      requires nth <= MaxUnsigned
      ensures r == if key in entries then Nth(Tokens(entries[key], delims), nth) else None
    {
      if key !in entries {
        return None;
      }
      hide Tokens;
      var s := entries[key];
      var value: nat, n: nat := 0, nth;
      assert s[0..] == s;
      while true
        invariant value <= |s| && n <= MaxUnsigned
        invariant Nth(Tokens(s, delims), nth) == Nth(Tokens(s[value..], delims), n)
        decreases |s| - value
      {
        ghost var start := value;
        value := SkipFrom(s, value, delims);
        var end := StopFrom(s, value, delims);
        NthStep(s, start, n, delims);
        if n == 0 && value < |s| {
          return Some(s[value..end]);
        }
        n := if n == 0 then MaxUnsigned else n - 1;
        value := end;
        if value == |s| {
          return None;
        }
      }
    }

    /** The index of the first occurrence, or -1. */
    method Find(key: string, value: string, delims: string) returns (r: int)
      ensures r == -1 || r >= 0
      ensures r >= 0 <==> key in entries && Contains(entries[key], value, delims)
      ensures r >= 0 ==> FirstAt(entries[key], value, delims, r)
    {
      if key !in entries {
        return -1;
      }
      hide Tokens, Scanned;
      var s := entries[key];
      var itr, idx := 0, 0;
      ghost var found: seq<string> := [];
      ScanStart(s, value, delims);
      while itr < |s|
        invariant 0 <= itr <= |s| && 0 <= idx
        invariant if itr < |s| then Scanned(s, itr, found, value, delims) && idx == |found|
                  else !Contains(s, value, delims)
        decreases |s| - itr
      {
        ScanStep(s, itr, found, value, delims);
        itr := SkipFrom(s, itr, delims);
        var end := StopFrom(s, itr, delims);
        if end - itr == |value| && s[itr..end] == value {
          return idx;
        }
        found := found + [s[itr..end]];
        itr, idx := end, idx + 1;
      }
      return -1;
    }

    /**
      Replace the first occurrence of a word by up to two others. The text before and behind is kept, up to the
      delimiters around the word; `at` is the index of the word, and `left` and `right` are the bounds of the text
      replaced.
    */
    method Replace(key: string, value: string, subst1: Option<string>, subst2: Option<string>, delims: string)
      returns (r: Option<string>, ghost at: nat, ghost left: nat, ghost right: nat)
      modifies this`entries
      ensures r.Some? <==> key in old(entries) && writable && Contains(Searched(old(entries[key])), value, delims)
      ensures entries == if r.Some? then old(entries)[key := r.value] else old(entries)
      ensures r.Some? ==>
        Replaced(old(entries[key]), value, OrEmpty(subst1), OrEmpty(subst2), delims, r.value, at, left, right)
    {
      r, at, left, right := None, 0, 0, 0;
      if key !in entries {
        return;
      }
      hide Tokens, Scanned, FoundHere, Replaced, Edited, Sep, PutTogether, Contains;
      var wordlist := entries[key];
      var start := SkipFrom(wordlist, 0, Blanks);
      var s := wordlist[start..];
      var itr := 0;
      ghost var found: seq<string> := [];
      ScanStart(s, value, delims);
      NothingToFind(value, delims);
      while itr < |s|
        invariant 0 <= itr <= |s| && entries == old(entries) && r == None
        invariant if itr < |s| then Scanned(s, itr, found, value, delims) else !Contains(s, value, delims)
        decreases |s| - itr
      {
        ScanStep(s, itr, found, value, delims);
        var leftEnd := itr;
        itr := SkipFrom(s, itr, delims);
        var end := StopFrom(s, itr, delims);
        if end - itr == |value| && s[itr..end] == value {
          itr := SkipFrom(s, end, delims);
          var str := PutTogether(wordlist[..start], s, leftEnd, itr, OrEmpty(subst1), OrEmpty(subst2), Sep(delims));
          ReplacedHere(wordlist, start, leftEnd, end, found, value, OrEmpty(subst1), OrEmpty(subst2), delims);
          var ok := Set(key, str);
          if ok {
            r, at, left, right := Some(str), |found|, leftEnd, itr;
          }
          return;
        }
        found := found + [s[itr..end]];
        itr := end;
      }
    }

    /** Append a word, unless it is there. */
    method Add(key: string, value: Option<string>, delims: string) returns (r: Option<string>)
      modifies this`entries
      ensures key !in old(entries) || OrEmpty(value) == "" ==> r == None && entries == old(entries)
      ensures key in old(entries) && OrEmpty(value) != "" && OrEmpty(value) in Tokens(old(entries[key]), delims) ==>
        r == Some(old(entries[key])) && entries == old(entries)
      ensures key in old(entries) && OrEmpty(value) != "" && OrEmpty(value) !in Tokens(old(entries[key]), delims) ==>
        && r.Some? == writable
        && entries == (if r.Some? then old(entries)[key := r.value] else old(entries))
        && (r.Some? ==> Appended(old(entries[key]), OrEmpty(value), delims, r.value))
    {
      hide Tokens, Scanned, FoundHere, Appended;
      if value == None || value.value == "" || key !in entries {
        return None;
      }
      var w, wordlist := value.value, entries[key];
      var itr := 0;
      ghost var found: seq<string> := [];
      ScanStart(wordlist, w, delims);
      NoWords(delims);
      while itr < |wordlist|
        invariant 0 <= itr <= |wordlist| && entries == old(entries)
        invariant if itr < |wordlist| then Scanned(wordlist, itr, found, w, delims) else w !in Tokens(wordlist, delims)
        decreases |wordlist| - itr
      {
        ScanStep(wordlist, itr, found, w, delims);
        itr := SkipFrom(wordlist, itr, delims);
        var end := StopFrom(wordlist, itr, delims);
        if end - itr == |w| && wordlist[itr..end] == w {
          FoundIsThere(wordlist, w, end, delims);
          return Some(wordlist);
        }
        found := found + [wordlist[itr..end]];
        itr := end;
      }
      AppendedTokens(wordlist, w, delims);
      var str := wordlist + (if SkipFrom(wordlist, 0, delims) < |wordlist| then Sep(delims) else "") + w;
      var ok := Set(key, str);
      r := if ok then Some(str) else None;
    }
  }
}
