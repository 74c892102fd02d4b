/**
 The CJK bigram analyzer. Unicode's alphabetic and numeric classes and its lower-casing are
 parameters: nothing below depends on which characters they hold.
 */
module Tokenizer {
  import opened Types

  datatype Token = Token(term: string, position: u32)

  datatype Unicode = Unicode(isAlphabetic: char -> bool, isNumeric: char -> bool, toLowercase: char -> string)

  predicate IsCjk(c: char) {
    || '\U{4E00}' <= c <= '\U{9FFF}'
    || '\U{3400}' <= c <= '\U{4DBF}'
    || '\U{F900}' <= c <= '\U{FAFF}'
    || '\U{3040}' <= c <= '\U{309F}'
    || '\U{30A0}' <= c <= '\U{30FF}'
    || '\U{AC00}' <= c <= '\U{D7AF}'
  }

  /** Length of the longest prefix whose characters all satisfy `p`. */
  function RunLength(p: char -> bool, s: string): (n: nat)
    ensures n <= |s|
    ensures forall i :: 0 <= i < n ==> p(s[i])
    ensures n < |s| ==> !p(s[n])
  {
    if s == [] || !p(s[0]) then 0 else 1 + RunLength(p, s[1..])
  }

  function Lowercase(u: Unicode, s: string): string {
    if s == [] then [] else Lowercase(u, s[..|s| - 1]) + u.toLowercase(s[|s| - 1])
  }

  /** How far one iteration of the main loop advances. */
  function Stride(u: Unicode, s: string): (n: nat)
    requires s != []
    ensures 1 <= n <= |s|
  {
    if IsCjk(s[0]) then 1
    else if u.isAlphabetic(s[0]) then RunLength(u.isAlphabetic, s)
    else if u.isNumeric(s[0]) then RunLength(u.isNumeric, s)
    else 1
  }

  /** The terms one iteration emits. */
  function Emitted(u: Unicode, s: string): seq<string>
    requires s != []
  {
    if IsCjk(s[0]) then
      (if |s| > 1 && IsCjk(s[1]) then [s[..2]] else []) + [s[..1]]
    else if u.isAlphabetic(s[0]) then [Lowercase(u, s[..RunLength(u.isAlphabetic, s)])]
    else if u.isNumeric(s[0]) then [s[..RunLength(u.isNumeric, s)]]
    else []
  }

  function Terms(u: Unicode, s: string): seq<string>
    decreases |s|
  {
    if s == [] then [] else Emitted(u, s) + Terms(u, s[Stride(u, s)..])
  }

  /** Position of the `n`-th token: the counter is a `u32`. */
  function PosOf(n: nat): u32 {
    n % TWO32
  }

  /** Tokens number their terms from `first` on. */
  function Numbered(terms: seq<string>, first: nat): (ts: seq<Token>)
    ensures |ts| == |terms|
    ensures forall k :: 0 <= k < |terms| ==> ts[k] == Token(terms[k], PosOf(first + k))
  {
    seq(|terms|, k requires 0 <= k < |terms| => Token(terms[k], PosOf(first + k)))
  }

  function TermsOf(tokens: seq<Token>): (ts: seq<string>)
    ensures |ts| == |tokens| && forall k :: 0 <= k < |ts| ==> ts[k] == tokens[k].term
  {
    seq(|tokens|, k requires 0 <= k < |tokens| => tokens[k].term)
  }

  /** The tokens so far are those of the text before `i`, as long as the loop stopped there. */
  ghost predicate Scanned(u: Unicode, text: string, i: nat, tokens: seq<Token>, pos: u32) {
    && i <= |text|
    && Terms(u, text) == TermsOf(tokens) + Terms(u, text[i..])
    && tokens == Numbered(TermsOf(tokens), 0)
    && pos == PosOf(|tokens|)
  }

  lemma ScannedStart(u: Unicode, text: string)
    ensures Scanned(u, text, 0, [], 0)
  {
    assert text[0..] == text;
  }

  lemma ScannedStep(u: Unicode, text: string, i: nat, tokens: seq<Token>, pos: u32)
    requires Scanned(u, text, i, tokens, pos) && i < |text|
    ensures var rest := text[i..];
      var tokens' := tokens + Numbered(Emitted(u, rest), |tokens|);
      Scanned(u, text, i + Stride(u, rest), tokens', PosOf(|tokens'|))
  {
    hide Emitted, Stride;
    var rest := text[i..];
    var n, emitted := Stride(u, rest), Emitted(u, rest);
    var tokens' := tokens + Numbered(emitted, |tokens|);
    assert rest[n..] == text[i + n..];
    assert TermsOf(tokens') == TermsOf(tokens) + emitted;
    assert TermsOf(tokens) + (emitted + Terms(u, rest[n..])) == TermsOf(tokens) + emitted + Terms(u, rest[n..]);
  }

  lemma ScannedEnd(u: Unicode, text: string, tokens: seq<Token>, pos: u32)
    requires Scanned(u, text, |text|, tokens, pos)
    ensures tokens == Numbered(Terms(u, text), 0)
  {
    assert text[|text|..] == [];
    assert TermsOf(tokens) + [] == TermsOf(tokens);
  }

  /** The end of a maximal run of characters in one class. */
  method ScanRun(p: char -> bool, text: string, start: nat) returns (i: nat)
    requires start <= |text|
    ensures i == start + RunLength(p, text[start..])
  {
    i := start;
    while i < |text| && p(text[i])
      invariant start <= i <= |text|
      invariant forall k :: start <= k < i ==> p(text[k])
    {
      i := i + 1;
    }
    assert forall k :: 0 <= k < i - start ==> text[start..][k] == text[start + k];
  }

  lemma NumberedOne(t: string, first: nat)
    ensures Numbered([t], first) == [Token(t, PosOf(first))]
  {
  }

  lemma NumberedTwo(t: string, t': string, first: nat)
    ensures Numbered([t, t'], first) == [Token(t, PosOf(first)), Token(t', PosOf(first + 1))]
  {
  }

  lemma NumberedNone(first: nat)
    ensures Numbered([], first) == []
  {
  }

  method Emit(tokens: seq<Token>, pos: u32, term: string) returns (tokens': seq<Token>, pos': u32)
    requires pos == PosOf(|tokens|)
    ensures tokens' == tokens + [Token(term, PosOf(|tokens|))] && pos' == PosOf(|tokens'|)
  {
    tokens' := tokens + [Token(term, pos)];
    pos' := (pos + 1) % TWO32;
  }

  /** The token sequence is the numbered terms, positions counting 0, 1, 2, ... without gaps. */
  method Tokenize(u: Unicode, text: string) returns (tokens: seq<Token>)
    ensures tokens == Numbered(Terms(u, text), 0)
    ensures |tokens| == |Terms(u, text)|
    ensures forall k :: 0 <= k < |tokens| ==> tokens[k].term == Terms(u, text)[k] && tokens[k].position == k % TWO32
  {
    hide Terms, Lowercase, RunLength, Numbered, Scanned, PosOf, IsCjk;
    tokens := [];
    var i := 0;
    var pos: u32 := 0;
    ScannedStart(u, text);
    assert pos == PosOf(|tokens|) by { ScannedPos(u, text, i, tokens, pos); }
    while i < |text|
      invariant i <= |text| && Scanned(u, text, i, tokens, pos) && pos == PosOf(|tokens|)
    {
      ghost var rest := text[i..];
      ghost var n := |tokens|;
      ghost var next := tokens + Numbered(Emitted(u, rest), n);
      ScannedStep(u, text, i, tokens, pos);
      var c := text[i];
      if IsCjk(c) {
        assert rest[..1] == [c];
        if i + 1 < |text| && IsCjk(text[i + 1]) {
          var bigram := text[i..i + 2];
          assert bigram == rest[..2];
          NumberedTwo(bigram, [c], n);
          tokens, pos := Emit(tokens, pos, bigram);
        } else {
          NumberedOne([c], n);
        }
        tokens, pos := Emit(tokens, pos, [c]);
        i := i + 1;
      } else if u.isAlphabetic(c) {
        var start := i;
        i := ScanRun(u.isAlphabetic, text, start);
        var word := LowercaseOf(u, text[start..i]);
        assert text[start..i] == rest[..i - start];
        NumberedOne(word, n);
        tokens, pos := Emit(tokens, pos, word);
      } else if u.isNumeric(c) {
        var start := i;
        i := ScanRun(u.isNumeric, text, start);
        assert text[start..i] == rest[..i - start];
        NumberedOne(text[start..i], n);
        tokens, pos := Emit(tokens, pos, text[start..i]);
      } else {
        NumberedNone(n);
        i := i + 1;
      }
      assert tokens == next;
    }
    ScannedEnd(u, text, tokens, pos);
    NumberedAt(Terms(u, text));
  }

  lemma NumberedAt(terms: seq<string>)
    ensures forall k :: 0 <= k < |terms| ==> Numbered(terms, 0)[k] == Token(terms[k], k % TWO32)
  {
  }

  lemma ScannedPos(u: Unicode, text: string, i: nat, tokens: seq<Token>, pos: u32)
    requires Scanned(u, text, i, tokens, pos)
    ensures pos == PosOf(|tokens|)
  {
  }

  method LowercaseOf(u: Unicode, s: string) returns (r: string)
    ensures r == Lowercase(u, s)
  {
    r := [];
    var i := 0;
    while i < |s|
      invariant i <= |s| && r == Lowercase(u, s[..i])
    {
      assert s[..i + 1][..i] == s[..i];
      r := r + u.toLowercase(s[i]);
      i := i + 1;
    }
    assert s[..i] == s;
  }

  /** The lower-cased form of a word is that of its characters, in order. */
  lemma LowercaseEmpty(u: Unicode)
    ensures Lowercase(u, []) == []
  {
  }

  lemma LowercaseOne(u: Unicode, c: char)
    ensures Lowercase(u, [c]) == u.toLowercase(c)
  {
    assert [c][..0] == [];
    assert Lowercase(u, [c][..0]) == [];
  }

  lemma {:induction false} LowercaseConcat(u: Unicode, a: string, b: string)
    ensures Lowercase(u, a + b) == Lowercase(u, a) + Lowercase(u, b)
  {
    if b == [] {
      assert a + b == a;
    } else {
      var n := |b| - 1;
      LowercaseConcat(u, a, b[..n]);
      assert (a + b)[..|a + b| - 1] == a + b[..n];
    }
  }

  /** The Unicode blocks that count as CJK, by code point. */
  const CJK_BLOCKS: seq<(int, int)> := [
    (0x4E00, 0x9FFF), (0x3400, 0x4DBF), (0xF900, 0xFAFF), (0x3040, 0x309F), (0x30A0, 0x30FF), (0xAC00, 0xD7AF)]

  lemma CjkIff(c: char)
    ensures IsCjk(c) <==> exists i :: 0 <= i < |CJK_BLOCKS| && CJK_BLOCKS[i].0 <= c as int <= CJK_BLOCKS[i].1
  {
    if IsCjk(c) {
      var x := c as int;
      var i := if x >= 0xF900 then 2 else if x >= 0xAC00 then 5 else if x >= 0x4E00 then 0
               else if x >= 0x3400 then 1 else if x >= 0x30A0 then 4 else 3;
      assert CJK_BLOCKS[i].0 <= x <= CJK_BLOCKS[i].1;
    }
  }

  // ---------------------------------------------------------------- separators

  predicate Separator(u: Unicode, c: char) {
    !IsCjk(c) && !u.isAlphabetic(c) && !u.isNumeric(c)
  }

  lemma {:induction false} RunStopsAt(p: char -> bool, a: string, c: char, b: string)
    requires !p(c)
    ensures RunLength(p, a + [c] + b) == RunLength(p, a)
  {
    if a == [] {
      assert (a + [c] + b)[0] == c;
    } else {
      RunStopsAt(p, a[1..], c, b);
      assert (a + [c] + b)[1..] == a[1..] + [c] + b;
    }
  }

  lemma SeparatorStep(u: Unicode, a: string, c: char, b: string)
    requires a != [] && Separator(u, c)
    ensures var s := a + [c] + b;
      Stride(u, s) == Stride(u, a) && Emitted(u, s) == Emitted(u, a) && s[Stride(u, s)..] == a[Stride(u, a)..] + [c] + b
  {
    hide RunLength, IsCjk, Lowercase;
    var s := a + [c] + b;
    RunStopsAt(u.isAlphabetic, a, c, b);
    RunStopsAt(u.isNumeric, a, c, b);
    assert s[0] == a[0] && s[..1] == a[..1];
    assert s[1] == if |a| > 1 then a[1] else c;
    assert |a| > 1 ==> s[..2] == a[..2];
    var n := RunLength(u.isAlphabetic, a);
    assert s[..n] == a[..n];
    var m := RunLength(u.isNumeric, a);
    assert s[..m] == a[..m];
    assert s[Stride(u, s)..] == a[Stride(u, a)..] + [c] + b;
  }

  /** Text on either side of a separator is analysed independently. */
  lemma {:induction false} SeparatorSplits(u: Unicode, a: string, c: char, b: string)
    requires Separator(u, c)
    ensures Terms(u, a + [c] + b) == Terms(u, a) + Terms(u, b)
    decreases |a|
  {
    hide Stride, Emitted;
    var s := a + [c] + b;
    if a == [] {
      SeparatorEmitsNothing(u, s);
      assert s[1..] == b;
    } else {
      SeparatorStep(u, a, c, b);
      SeparatorSplits(u, a[Stride(u, a)..], c, b);
    }
  }

  lemma SeparatorEmitsNothing(u: Unicode, s: string)
    requires s != [] && Separator(u, s[0])
    ensures Stride(u, s) == 1 && Emitted(u, s) == []
  {
  }

  /** Compositionality of tokens: the right part's positions follow on from the left part's. */
  lemma TokensCompose(u: Unicode, a: string, c: char, b: string)
    requires Separator(u, c)
    ensures Numbered(Terms(u, a + [c] + b), 0) == Numbered(Terms(u, a), 0) + Numbered(Terms(u, b), |Terms(u, a)|)
  {
    hide Terms;
    SeparatorSplits(u, a, c, b);
  }

  // ---------------------------------------------------------------- where the scan stops

  /** The main loop is at index `i` at some loop head. */
  predicate Visits(u: Unicode, s: string, i: nat)
    decreases |s|
  {
    i == 0 || (s != [] && Stride(u, s) <= i && Visits(u, s[Stride(u, s)..], i - Stride(u, s)))
  }

  lemma {:induction false} VisitStep(u: Unicode, s: string, i: nat)
    requires i < |s| && Visits(u, s, i)
    ensures i + Stride(u, s[i..]) <= |s| && Visits(u, s, i + Stride(u, s[i..]))
    decreases |s|
  {
    hide Stride;
    if i == 0 {
      assert s[0..] == s;
    } else {
      var n := Stride(u, s);
      VisitStep(u, s[n..], i - n);
      assert s[n..][i - n..] == s[i..];
    }
  }

  /** From a loop head on, the terms are those of the remaining text. */
  lemma {:induction false} TermsFromVisit(u: Unicode, s: string, i: nat) returns (before: seq<string>)
    requires i <= |s| && Visits(u, s, i)
    ensures Terms(u, s) == before + Terms(u, s[i..])
    decreases |s|
  {
    hide Stride, Emitted;
    if i == 0 {
      before := [];
      assert s[0..] == s;
    } else {
      var n := Stride(u, s);
      before := TermsFromVisit(u, s[n..], i - n);
      before := Emitted(u, s) + before;
      assert s[n..][i - n..] == s[i..];
    }
  }

  /** What the document has at a place where the main loop stops, runs of one character included: `n`
      characters give the terms `here`, after those of everything before and ahead of those of what
      follows. A CJK character gives its pair with a CJK neighbour and then itself, a letter the
      lower-cased word of all letters from it on, a digit the number, anything else nothing. */
  lemma TermsHere(u: Unicode, d: string, j: nat) returns (before: seq<string>, here: seq<string>, n: nat)
    requires j < |d| && Visits(u, d, j)
    ensures n >= 1 && j + n <= |d| && Visits(u, d, j + n)
    ensures Terms(u, d) == before + Terms(u, d[j..]) && Terms(u, d) == before + here + Terms(u, d[j + n..])
    ensures IsCjk(d[j]) ==>
      n == 1 && here == if j + 1 < |d| && IsCjk(d[j + 1]) then [d[j..j + 2], [d[j]]] else [[d[j]]]
    ensures !IsCjk(d[j]) && u.isAlphabetic(d[j]) ==>
      && here == [Lowercase(u, d[j..j + n])] && (forall i :: j <= i < j + n ==> u.isAlphabetic(d[i]))
      && (j + n < |d| ==> !u.isAlphabetic(d[j + n]))
    ensures !IsCjk(d[j]) && !u.isAlphabetic(d[j]) && u.isNumeric(d[j]) ==>
      && here == [d[j..j + n]] && (forall i :: j <= i < j + n ==> u.isNumeric(d[i]))
      && (j + n < |d| ==> !u.isNumeric(d[j + n]))
    ensures !IsCjk(d[j]) && !u.isAlphabetic(d[j]) && !u.isNumeric(d[j]) ==> n == 1 && here == []
  {
    hide Terms, Visits, Lowercase, IsCjk;
    var s := d[j..];
    before := TermsFromVisit(u, d, j);
    TermsStep(u, s);
    here, n := Emitted(u, s), Stride(u, s);
    VisitStep(u, d, j);
    assert s[0] == d[j] && s[n..] == d[j + n..] && s[..n] == d[j..j + n];
    assert s[..1] == [d[j]] && (|s| > 1 ==> s[1] == d[j + 1] && s[..2] == d[j..j + 2]);
    assert forall i :: j <= i < |d| ==> d[i] == s[i - j];
    assert before + (here + Terms(u, s[n..])) == before + here + Terms(u, s[n..]);
  }

  lemma StrideInside(u: Unicode, s: string, i: nat)
    requires 0 < i < |s| && Separator(u, s[i])
    ensures Stride(u, s) <= i
  {
  }

  /** Separators are never skipped over. */
  lemma {:induction false} SeparatorVisited(u: Unicode, s: string, i: nat)
    requires i < |s| && Separator(u, s[i])
    ensures Visits(u, s, i)
    decreases |s|
  {
    hide Stride;
    if i > 0 {
      StrideInside(u, s, i);
      SeparatorVisited(u, s[Stride(u, s)..], i - Stride(u, s));
    }
  }

  /** An index the loop never stops at lies strictly inside one run that began at an earlier stop. */
  lemma {:induction false} UnvisitedIsSwallowed(u: Unicode, s: string, i: nat) returns (j: nat)
    requires i < |s| && !Visits(u, s, i)
    ensures j < i && Visits(u, s, j) && i < j + Stride(u, s[j..])
    decreases |s|
  {
    hide Stride;
    var n := Stride(u, s);
    if i < n {
      j := 0;
      assert s[0..] == s;
    } else {
      var k := UnvisitedIsSwallowed(u, s[n..], i - n);
      j := n + k;
      assert s[n..][k..] == s[j..];
    }
  }

  /** A run in progress. */
  datatype Mode = Outside | InWord | InNumber

  /** The run in progress goes on over `c`. */
  predicate Swallows(u: Unicode, m: Mode, c: char) {
    (m.InWord? && u.isAlphabetic(c)) || (m.InNumber? && u.isNumeric(c))
  }

  /** The run in progress at the end of `x`. */
  function ModeOf(u: Unicode, x: string): Mode {
    if x == [] then Outside
    else
      var m, c := ModeOf(u, x[..|x| - 1]), x[|x| - 1];
      if Swallows(u, m, c) then m
      else if IsCjk(c) then Outside
      else if u.isAlphabetic(c) then InWord
      else if u.isNumeric(c) then InNumber
      else Outside
  }

  /** A character not swallowed starts afresh. */
  lemma {:induction false} ModeFromHead(u: Unicode, a: string, b: string)
    requires b != [] && !Swallows(u, ModeOf(u, a), b[0])
    ensures ModeOf(u, a + b) == ModeOf(u, b)
  {
    hide Swallows, IsCjk;
    var n := |b| - 1;
    assert (a + b)[..|a + b| - 1] == a + b[..n];
    if n > 0 {
      ModeFromHead(u, a, b[..n]);
    } else {
      assert a + b[..n] == a && ModeOf(u, b[..n]) == Outside;
      assert !Swallows(u, Outside, b[0]) by { OutsideSwallowsNothing(u, b[0]); }
    }
  }

  lemma OutsideSwallowsNothing(u: Unicode, c: char)
    ensures !Swallows(u, Outside, c)
  {
  }

  /** Inside the first iteration's run that run is in progress; after it, it does not go on. */
  lemma {:induction false} ModeInStride(u: Unicode, s: string, i: nat)
    requires s != [] && 0 < i <= Stride(u, s)
    ensures ModeOf(u, s[..i]) ==
      if IsCjk(s[0]) || Separator(u, s[0]) then Outside else if u.isAlphabetic(s[0]) then InWord else InNumber
    ensures i < |s| ==> (Swallows(u, ModeOf(u, s[..i]), s[i]) <==> i < Stride(u, s))
  {
    hide IsCjk;
    assert s[..i][..i - 1] == s[..i - 1];
    if i == 1 {
      assert s[..0] == [];
    } else {
      ModeInStride(u, s, i - 1);
    }
  }

  /** Exactly where the main loop stops: at the characters the run in progress does not swallow. */
  lemma {:induction false} VisitsIff(u: Unicode, s: string, i: nat)
    requires i < |s|
    ensures Visits(u, s, i) <==> !Swallows(u, ModeOf(u, s[..i]), s[i])
    decreases |s|
  {
    hide Stride, Swallows;
    if i == 0 {
      OutsideSwallowsNothing(u, s[0]);
    } else {
      var n := Stride(u, s);
      ModeInStride(u, s, if i < n then i else n);
      if i > n {
        VisitsIff(u, s[n..], i - n);
        assert s[..n] + s[n..i] == s[..i] && s[n..][..i - n] == s[n..i];
        ModeFromHead(u, s[..n], s[n..i]);
      } else if i == n {
        assert Visits(u, s[n..], 0);
      }
    }
  }

  /** `x` ends in a run of `p` that a character other than CJK is part of. */
  predicate RunAtEnd(p: char -> bool, x: string) {
    x != [] && p(x[|x| - 1]) && (!IsCjk(x[|x| - 1]) || RunAtEnd(p, x[..|x| - 1]))
  }

  /** The same, without recursion. */
  ghost predicate EndsInRun(p: char -> bool, x: string) {
    exists j :: 0 <= j < |x| && !IsCjk(x[j]) && forall k :: j <= k < |x| ==> p(x[k])
  }

  lemma {:induction false} RunAtEndIff(p: char -> bool, x: string)
    ensures RunAtEnd(p, x) <==> EndsInRun(p, x)
  {
    hide IsCjk;
    if x != [] {
      var n := |x| - 1;
      RunAtEndIff(p, x[..n]);
      if j :| 0 <= j < |x| && !IsCjk(x[j]) && forall k :: j <= k < |x| ==> p(x[k]) {
        assert p(x[n]);
        assert j < n ==> x[..n][j] == x[j];
        assert forall k :: j <= k < n ==> x[..n][k] == x[k];
      }
    }
  }

  /** Where no character is both a letter and a number, the run in progress can be read off the
      end of the text: a letter or number run with a character other than CJK in it. */
  lemma {:induction false} ModeIff(u: Unicode, x: string)
    requires forall k :: 0 <= k < |x| ==> !(u.isAlphabetic(x[k]) && u.isNumeric(x[k]))
    ensures ModeOf(u, x).InWord? <==> RunAtEnd(u.isAlphabetic, x)
    ensures ModeOf(u, x).InNumber? <==> RunAtEnd(u.isNumeric, x)
  {
    if x != [] {
      ModeIff(u, x[..|x| - 1]);
    }
  }

  /** The text before a loop head and the text from it on are analysed independently, unless a
      bigram joins them. */
  lemma {:induction false} HeadSplits(u: Unicode, d: string, j: nat)
    requires j < |d| && Visits(u, d, j) && (j > 0 ==> !(IsCjk(d[j - 1]) && IsCjk(d[j])))
    ensures Terms(u, d) == Terms(u, d[..j]) + Terms(u, d[j..])
    decreases |d|
  {
    hide IsCjk, Stride, Emitted;
    if j == 0 {
      assert d[0..] == d && d[..0] == [];
    } else {
      var n := Stride(u, d);
      SameStride(u, d, j);
      assert n < j ==> d[n..][j - n - 1] == d[j - 1];
      HeadSplits(u, d[n..], j - n);
      assert d[n..][..j - n] == d[..j][n..] && d[n..][j - n..] == d[j..];
      TermsStep(u, d);
      TermsStep(u, d[..j]);
      hide Terms;
      assert Terms(u, d) == Emitted(u, d) + (Terms(u, d[..j][n..]) + Terms(u, d[j..]));
    }
  }

  /** The first iteration is the same on a text cut after it. */
  lemma SameStride(u: Unicode, d: string, j: nat)
    requires 0 < j < |d| && Stride(u, d) <= j && !(IsCjk(d[j - 1]) && IsCjk(d[j]))
    ensures Stride(u, d[..j]) == Stride(u, d) && Emitted(u, d[..j]) == Emitted(u, d)
  {
    hide IsCjk, RunLength, Lowercase;
    var a, n := d[..j], Stride(u, d);
    assert a[0] == d[0] && a[..n] == d[..n];
    assert j > 1 ==> a[1] == d[1] && a[..2] == d[..2];
    if !IsCjk(d[0]) && u.isAlphabetic(d[0]) {
      RunLengthIs(u.isAlphabetic, a, n);
    } else if !IsCjk(d[0]) && u.isNumeric(d[0]) {
      RunLengthIs(u.isNumeric, a, n);
    }
  }

  // ---------------------------------------------------------------- search

  predicate AllCjk(q: string) {
    forall i :: 0 <= i < |q| ==> IsCjk(q[i])
  }

  /** An all-CJK text of n >= 1 characters yields exactly 2n - 1 terms: each adjacent pair, then
      its first character, in text order. */
  lemma {:induction false} CjkTerms(u: Unicode, q: string)
    requires AllCjk(q) && q != []
    ensures |Terms(u, q)| == 2 * |q| - 1
    ensures forall k :: 0 <= k < |q| - 1 ==> Terms(u, q)[2 * k] == q[k..k + 2] && Terms(u, q)[2 * k + 1] == [q[k]]
    ensures Terms(u, q)[2 * |q| - 2] == [q[|q| - 1]]
  {
    hide Terms;
    CjkStep(u, q);
    if |q| > 1 {
      var rest := q[1..];
      CjkTerms(u, rest);
      assert Terms(u, q)[2..] == Terms(u, rest);
      forall k | 0 <= k < |q| - 1
        ensures Terms(u, q)[2 * k] == q[k..k + 2] && Terms(u, q)[2 * k + 1] == [q[k]]
      {
        if k > 0 {
          var j := k - 1;
          assert Terms(u, rest)[2 * j] == rest[j..j + 2] && rest[j..j + 2] == q[k..k + 2];
        }
      }
    }
  }

  lemma CjkStep(u: Unicode, q: string)
    requires AllCjk(q) && q != []
    ensures |q| == 1 ==> Terms(u, q) == [[q[0]]]
    ensures |q| > 1 ==> Terms(u, q) == [q[0..2], [q[0]]] + Terms(u, q[1..])
  {
    assert q[..1] == [q[0]];
    assert |q| == 1 ==> Terms(u, q[1..]) == [];
  }

  lemma {:induction false} CjkTermsInside(u: Unicode, q: string, y: string, t: string)
    requires AllCjk(q) && t in Terms(u, q)
    ensures t in Terms(u, q + y)
  {
    var s := q + y;
    assert s[0] == q[0] && s[1..] == q[1..] + y && s[..1] == q[..1];
    assert |q| > 1 ==> s[..2] == q[..2];
    assert Terms(u, q) == Emitted(u, q) + Terms(u, q[1..]);
    assert Terms(u, s) == Emitted(u, s) + Terms(u, s[1..]);
    if t in Terms(u, q[1..]) {
      CjkTermsInside(u, q[1..], y, t);
    }
  }

  /** The text starts here, or a separator comes before, or a CJK character that no word or number
      run swallowed. */
  predicate Findable(u: Unicode, d: string, i: nat)
    requires i <= |d|
  {
    i == 0 || Separator(u, d[i - 1]) || (IsCjk(d[i - 1]) && Visits(u, d, i - 1))
  }

  /** The main loop stops at all such places. */
  lemma FindableVisited(u: Unicode, d: string, i: nat)
    requires i <= |d| && Findable(u, d, i)
    ensures Visits(u, d, i)
  {
    hide Visits;
    if i == 0 {
      assert Visits(u, d, 0) by { VisitsStart(u, d); }
    } else {
      if Separator(u, d[i - 1]) {
        SeparatorVisited(u, d, i - 1);
      }
      VisitStep(u, d, i - 1);
      assert d[i - 1..][0] == d[i - 1];
    }
  }

  lemma VisitsStart(u: Unicode, d: string)
    ensures Visits(u, d, 0)
  {
  }

  /** Search completeness: if an all-CJK query occurs in a document where the main loop stops, every
      term of the query is a term of the document. */
  lemma SearchComplete(u: Unicode, x: string, q: string, y: string)
    requires AllCjk(q) && Visits(u, x + q + y, |x|)
    ensures forall t :: t in Terms(u, q) ==> t in Terms(u, x + q + y)
  {
    hide Terms, AllCjk, Visits;
    var d := x + q + y;
    var before := TermsFromVisit(u, d, |x|);
    assert d[|x|..] == q + y;
    forall t | t in Terms(u, q) ensures t in Terms(u, d) {
      CjkTermsInside(u, q, y, t);
    }
  }

  /** That place can be read off the text before the occurrence: the run in progress there does not
      take the first character of the query. Where no character is both a letter and a number, the
      run in progress is the letter or number run that the text ends in, if that has a character
      other than CJK in it. */
  lemma SearchGuardIff(u: Unicode, x: string, q: string, y: string)
    requires q != []
    ensures Visits(u, x + q + y, |x|) <==> !Swallows(u, ModeOf(u, x), q[0])
    ensures (forall k :: 0 <= k < |x| ==> !(u.isAlphabetic(x[k]) && u.isNumeric(x[k]))) ==>
      (Visits(u, x + q + y, |x|) <==>
       && !(u.isAlphabetic(q[0]) && EndsInRun(u.isAlphabetic, x))
       && !(u.isNumeric(q[0]) && EndsInRun(u.isNumeric, x)))
  {
    hide Visits, ModeOf, RunAtEnd, EndsInRun;
    var d := x + q + y;
    assert d[..|x|] == x && d[|x|] == q[0];
    VisitsIff(u, d, |x|);
    if forall k :: 0 <= k < |x| ==> !(u.isAlphabetic(x[k]) && u.isNumeric(x[k])) {
      ModeIff(u, x);
      RunAtEndIff(u.isAlphabetic, x);
      RunAtEndIff(u.isNumeric, x);
    }
  }

  /** Everywhere else the occurrence leaves no terms of its own: it begins inside one word or
      number that started in `x`, and the document has that one's term instead, between the terms
      of what comes before the run and of what comes after it. */
  lemma SwallowedTerms(u: Unicode, x: string, q: string, y: string) returns (j: nat, n: nat)
    requires q != [] && !Visits(u, x + q + y, |x|)
    ensures j < |x| < j + n <= |x + q + y| && Visits(u, x + q + y, j) && n == Stride(u, (x + q + y)[j..])
    ensures var d := x + q + y;
      var run := d[j..j + n];
      && !IsCjk(d[j])
      && Terms(u, d) ==
         Terms(u, d[..j]) + [if u.isAlphabetic(d[j]) then Lowercase(u, run) else run] + Terms(u, d[j + n..])
  {
    hide Visits, Terms, Lowercase, IsCjk, RunLength;
    var d := x + q + y;
    j := UnvisitedIsSwallowed(u, d, |x|);
    n := Stride(u, d[j..]);
    assert !IsCjk(d[j]) && (u.isAlphabetic(d[j]) || u.isNumeric(d[j])) by { assert d[j..][0] == d[j]; }
    HeadSplits(u, d, j);
    TermsStep(u, d[j..]);
    assert d[j..][..n] == d[j..j + n] && d[j..][n..] == d[j + n..];
  }

  lemma TermsStep(u: Unicode, s: string)
    requires s != []
    ensures Terms(u, s) == Emitted(u, s) + Terms(u, s[Stride(u, s)..])
  {
  }

  /** A query of alphabetic CJK characters straight after a word becomes part of that word,
      whatever the word and whatever the query. */
  lemma WordSwallowsQuery(u: Unicode, x: string, q: string, y: string) returns (j: nat)
    requires ModeOf(u, x).InWord? && q != [] && (forall k :: 0 <= k < |q| ==> u.isAlphabetic(q[k]))
    requires y == [] || !u.isAlphabetic(y[0])
    ensures !Visits(u, x + q + y, |x|)
    ensures j < |x| && Terms(u, x + q + y) == Terms(u, x[..j]) + [Lowercase(u, x[j..] + q)] + Terms(u, y)
  {
    hide Visits, Terms, Lowercase, ModeOf, RunLength, Stride;
    var d := x + q + y;
    assert d[..|x|] == x && d[|x|] == q[0];
    VisitsIff(u, d, |x|);
    var n;
    j, n := SwallowedTerms(u, x, q, y);
    VisitsIff(u, d, j);
    assert d[..j] == x[..j] && x[..j] + x[j..] == x;
    ModeFromHead(u, x[..j], x[j..]);
    assert d[j..] == x[j..] + q + y;
    WordStride(u, x[j..], q, y);
    assert d[j..j + n] == x[j..] + q && d[j + n..] == y;
  }

  lemma WordStride(u: Unicode, w: string, q: string, y: string)
    requires w != [] && ModeOf(u, w).InWord? && |w| < Stride(u, w + q + y)
    requires forall k :: 0 <= k < |q| ==> u.isAlphabetic(q[k])
    requires y == [] || !u.isAlphabetic(y[0])
    ensures u.isAlphabetic(w[0]) && Stride(u, w + q + y) == |w| + |q|
  {
    hide ModeOf, IsCjk;
    var d := w + q + y;
    ModeInStride(u, d, |w|);
    assert d[..|w|] == w;
    RunLengthIs(u.isAlphabetic, d, |w| + |q|);
  }

  /** So it is not found: the smallest document in which a search misses a character it contains. */
  lemma LatinSwallowsCjk(u: Unicode, latin: char, cjk: char)
    requires !IsCjk(latin) && IsCjk(cjk) && u.isAlphabetic(latin) && u.isAlphabetic(cjk)
    requires |u.toLowercase(latin)| >= 1 && |u.toLowercase(cjk)| >= 1
    ensures Terms(u, [cjk]) == [[cjk]] && [cjk] !in Terms(u, [latin, cjk])
    ensures !Visits(u, [latin] + [cjk], 1)
  {
    var d := [latin, cjk];
    RunLengthIs(u.isAlphabetic, d, 2);
    assert Terms(u, d[2..]) == [] && d[..2] == d;
    assert Terms(u, d) == [Lowercase(u, d)];
    assert d[..1] == [latin] && Lowercase(u, [latin]) == Lowercase(u, []) + u.toLowercase(latin);
    assert Lowercase(u, d) == Lowercase(u, d[..1]) + u.toLowercase(cjk);
    assert Terms(u, [cjk][1..]) == [] && [cjk][..1] == [cjk];
    assert [latin] + [cjk] == d;
  }

  lemma RunLengthIs(p: char -> bool, s: string, n: nat)
    requires n <= |s| && (forall i :: 0 <= i < n ==> p(s[i])) && (n < |s| ==> !p(s[n]))
    ensures RunLength(p, s) == n
  {
  }
}
