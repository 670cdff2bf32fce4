/** The Python 2 `str` operations monitorlib is built on: whitespace
    splitting with a split limit, joining with a space, substring and
    separator tests, and decimal rendering of integers. */
module Strings {
  import opened Common

  /** The characters Python 2's `str.split()` treats as whitespace: space,
      tab, line feed, vertical tab, form feed and carriage return. */
  predicate IsWs(c: char)
  {
    c == ' ' || ('\t' <= c <= '\r')
  }

  predicate NoWs(s: string)
  {
    forall i :: 0 <= i < |s| ==> !IsWs(s[i])
  }

  /** A maximal run of non-whitespace characters. */
  predicate IsWord(s: string)
  {
    s != [] && NoWs(s)
  }

  /** What `split()` can return as a field: non-empty and not starting with
      whitespace (the last field of a limited split may contain some). */
  predicate IsField(s: string)
  {
    s != [] && !IsWs(s[0])
  }

  /** `s` with its leading whitespace removed. */
  function DropWs(s: string): (r: string)
    ensures |r| <= |s|
    ensures r == [] || !IsWs(r[0])
  {
    if s != [] && IsWs(s[0]) then DropWs(s[1..]) else s
  }

  /** Length of the run of non-whitespace characters `s` starts with. */
  function WordLen(s: string): (n: nat)
    ensures n <= |s|
    ensures forall i :: 0 <= i < n ==> !IsWs(s[i])
    ensures n < |s| ==> IsWs(s[n])
  {
    if s != [] && !IsWs(s[0]) then 1 + WordLen(s[1..]) else 0
  }

  /** Python's `s.split(None, maxsplit)` for a non-negative limit, as
      CPython computes it: up to `maxsplit` words are cut off the front,
      whitespace between them is dropped, and whatever is left after the
      last cut loses its leading whitespace but keeps everything else,
      trailing whitespace included. */
  function SplitWs(s: string, maxsplit: nat): (r: seq<string>)
    ensures |r| <= maxsplit + 1
    ensures forall i :: 0 <= i < |r| ==> IsField(r[i])
    ensures forall i :: 0 <= i < |r| && i < maxsplit ==> IsWord(r[i])
    decreases |s|
  {
    var t := DropWs(s);
    if t == [] then []
    else if maxsplit == 0 then [t]
    else
      var k := WordLen(t);
      [t[..k]] + SplitWs(t[k..], maxsplit - 1)
  }

  /** Number of word starts in `s` (non-whitespace characters that come
      first or follow whitespace), given whether `s` follows whitespace. */
  function WordStarts(s: string, afterWs: bool): nat
  {
    if s == [] then 0
    else (if afterWs && !IsWs(s[0]) then 1 else 0) + WordStarts(s[1..], IsWs(s[0]))
  }

  /** Number of whitespace-separated words in `s`, counted character by
      character independently of `SplitWs`. */
  function WordCount(s: string): nat
  {
    WordStarts(s, true)
  }

  lemma {:induction false} DropWsKeepsWords(s: string)
    ensures WordCount(DropWs(s)) == WordCount(s)
  {
    if s != [] && IsWs(s[0]) {
      DropWsKeepsWords(s[1..]);
    }
  }

  /** Skipping a word of length `k` consumes exactly one word start (when
      the word follows whitespace). */
  lemma {:induction false} WordStartsSkipWord(s: string, k: nat, afterWs: bool)
    requires k <= |s|
    requires forall i :: 0 <= i < k ==> !IsWs(s[i])
    requires k == |s| || IsWs(s[k])
    ensures WordStarts(s, afterWs) == (if k > 0 && afterWs then 1 else 0) + WordStarts(s[k..], true)
  {
    if k > 0 {
      WordStartsSkipWord(s[1..], k - 1, false);
      assert s[1..][k - 1..] == s[k..];
    }
  }

  /** A limited split returns every word, but at most `maxsplit + 1` fields. */
  lemma {:induction false} SplitWsCount(s: string, maxsplit: nat)
    ensures |SplitWs(s, maxsplit)| == Min(WordCount(s), maxsplit + 1)
    decreases |s|
  {
    var t := DropWs(s);
    DropWsKeepsWords(s);
    if t != [] {
      var k := WordLen(t);
      WordStartsSkipWord(t, k, true);
      if maxsplit > 0 {
        SplitWsCount(t[k..], maxsplit - 1);
      }
    }
  }

  /** Splitting with a higher limit changes none of the fields cut off under
      the lower one. */
  lemma {:induction false} SplitWsAgree(s: string, n: nat, m: nat, i: nat)
    requires n <= m && i < n && i < |SplitWs(s, n)|
    ensures i < |SplitWs(s, m)| && SplitWs(s, m)[i] == SplitWs(s, n)[i]
    decreases |s|
  {
    var t := DropWs(s);
    var k := WordLen(t);
    if i > 0 {
      SplitWsAgree(t[k..], n - 1, m - 1, i - 1);
    }
  }

  /** The `i`-th whitespace-separated word of `s`, counting from 0. */
  function NthWord(s: string, i: nat): (w: string)
    requires i < WordCount(s)
    ensures IsWord(w)
  {
    SplitWsCount(s, i + 1);
    SplitWs(s, i + 1)[i]
  }

  /** Any split limit above `i` cuts off the `i`-th word as field `i`. */
  lemma NthWordAnyLimit(s: string, i: nat, n: nat)
    requires i < n
    ensures i < |SplitWs(s, n)| <==> i < WordCount(s)
    ensures i < WordCount(s) ==> SplitWs(s, n)[i] == NthWord(s, i)
  {
    SplitWsCount(s, n);
    if i < WordCount(s) {
      SplitWsCount(s, i + 1);
      SplitWsAgree(s, i + 1, n, i);
    }
  }

  lemma {:induction false} WordLenOfWord(w: string, rest: string)
    requires IsWord(w)
    requires rest == [] || IsWs(rest[0])
    ensures WordLen(w + rest) == |w|
  {
    assert (w + rest)[0] == w[0];
    assert (w + rest)[1..] == w[1..] + rest;
    if |w| > 1 {
      assert w[1..][0] == w[1];
      WordLenOfWord(w[1..], rest);
    }
  }

  /** A word followed by whitespace (or nothing) is cut off as the first field. */
  lemma SplitAfterWord(w: string, rest: string, n: nat)
    requires IsWord(w)
    requires rest == [] || IsWs(rest[0])
    ensures SplitWs(w + rest, n + 1) == [w] + SplitWs(rest, n)
  {
    var s := w + rest;
    assert DropWs(s) == s;
    WordLenOfWord(w, rest);
    assert s[..|w|] == w;
    assert s[|w|..] == rest;
  }

  lemma SplitAfterSpace(s: string, n: nat)
    ensures SplitWs(" " + s, n) == SplitWs(s, n)
  {
    assert (" " + s)[1..] == s;
  }

  /** A single word splits to itself, whatever the limit. */
  lemma SplitWord(w: string, n: nat)
    requires IsWord(w)
    ensures SplitWs(w, n) == [w]
  {
    if n > 0 {
      SplitAfterWord(w, [], n - 1);
      assert w + [] == w;
    }
  }

  /** With limit 0 a field comes back whole. */
  lemma SplitField(f: string)
    requires IsField(f)
    ensures SplitWs(f, 0) == [f]
  {
  }

  predicate AllWs(s: string)
  {
    forall i :: 0 <= i < |s| ==> IsWs(s[i])
  }

  /** A whitespace character in front of a run of whitespace. */
  lemma AllWsCons(c: char, w: string)
    requires IsWs(c) && AllWs(w)
    ensures AllWs([c] + w)
  {
    assert forall i :: 0 < i < |[c] + w| ==> ([c] + w)[i] == w[i - 1];
  }

  /** The inductive step of `DropWsSplits`. */
  lemma DropWsSplitsCons(s: string)
    requires s != [] && IsWs(s[0])
    requires var u := s[1..]; DropWs(u) == u[|u| - |DropWs(u)|..] && AllWs(u[..|u| - |DropWs(u)|])
    ensures DropWs(s) == s[|s| - |DropWs(s)|..]
    ensures AllWs(s[..|s| - |DropWs(s)|])
  {
    var u := s[1..];
    var m := |u| - |DropWs(u)|;
    var w := u[..m];
    var p := s[..m + 1];
    assert DropWs(s) == DropWs(u);
    assert |s| - |DropWs(s)| == m + 1;
    assert u[m..] == s[m + 1..];
    forall i | 0 <= i < |p| ensures IsWs(p[i]) {
      if i > 0 {
        assert p[i] == w[i - 1];
      }
    }
  }

  /** What `DropWs` removes is a run of whitespace in front of what it keeps. */
  lemma {:induction false} DropWsSplits(s: string)
    ensures DropWs(s) == s[|s| - |DropWs(s)|..]
    ensures s == s[..|s| - |DropWs(s)|] + DropWs(s)
    ensures AllWs(s[..|s| - |DropWs(s)|])
    ensures s != [] && IsWs(s[0]) ==> |DropWs(s)| < |s|
  {
    if s != [] && IsWs(s[0]) {
      DropWsSplits(s[1..]);
      DropWsSplitsCons(s);
    } else {
      assert s[..0] == [];
      assert s[0..] == s;
    }
    var n := |s| - |DropWs(s)|;
    assert s == s[..n] + s[n..];
  }

  /** Whitespace in front of something that does not start with whitespace
      is exactly what `DropWs` removes. */
  lemma {:induction false} DropWsOfGap(g: string, x: string)
    requires AllWs(g)
    requires x == [] || !IsWs(x[0])
    ensures DropWs(g + x) == x
    decreases |g|
  {
    if g == [] {
      assert g + x == x;
    } else {
      assert (g + x)[0] == g[0];
      assert (g + x)[1..] == g[1..] + x;
      DropWsOfGap(g[1..], x);
    }
  }

  /** `gaps[0] + fields[0] + gaps[1] + ... + fields[n - 1] + gaps[n]`. */
  function Interleave(gaps: seq<string>, fields: seq<string>): string
    requires |gaps| == |fields| + 1
  {
    if fields == [] then gaps[0] else gaps[0] + fields[0] + Interleave(gaps[1..], fields[1..])
  }

  /** `fields` is a split of `s` with limit `maxsplit`, `gaps` being the
      whitespace around the fields: `s` is the fields with the gaps between
      and around them; the gaps hold only whitespace, and those between two
      fields are not empty; every field is non-empty and does not start with
      whitespace, the fields before the limit hold no whitespace at all, and
      a last field past the limit runs to the end of `s`. This describes
      Python's `s.split(None, maxsplit)` without saying how it is computed. */
  predicate IsSplitOf(s: string, maxsplit: nat, fields: seq<string>, gaps: seq<string>)
  {
    && |fields| <= maxsplit + 1
    && |gaps| == |fields| + 1
    && s == Interleave(gaps, fields)
    && (forall i :: 0 <= i < |gaps| ==> AllWs(gaps[i]))
    && (forall i :: 0 < i < |fields| ==> gaps[i] != [])
    && (forall i :: 0 <= i < |fields| ==> IsField(fields[i]))
    && (forall i :: 0 <= i < |fields| && i < maxsplit ==> IsWord(fields[i]))
    && (|fields| == maxsplit + 1 ==> gaps[|fields|] == [])
  }

  /** The whitespace `SplitWs` drops around the fields it returns. */
  function SplitGaps(s: string, maxsplit: nat): seq<string>
    decreases |s|
  {
    var t := DropWs(s);
    var lead := s[..|s| - |t|];
    if t == [] then [s]
    else if maxsplit == 0 then [lead, []]
    else [lead] + SplitGaps(t[WordLen(t)..], maxsplit - 1)
  }

  /** A word and the whitespace before it put in front of a split with a
      limit one lower. */
  lemma SplitOfCons(lead: string, word: string, after: string, maxsplit: nat,
                    fields: seq<string>, gaps: seq<string>)
    requires AllWs(lead) && IsWord(word) && maxsplit > 0
    requires IsSplitOf(after, maxsplit - 1, fields, gaps)
    requires fields != [] ==> gaps[0] != []
    ensures IsSplitOf(lead + word + after, maxsplit, [word] + fields, [lead] + gaps)
  {
    var fs := [word] + fields;
    var gs := [lead] + gaps;
    assert fs[1..] == fields && gs[1..] == gaps;
    assert Interleave(gs, fs) == lead + word + after;
    assert forall i :: 0 < i < |fs| ==> gs[i] != [] by {
      forall i | 0 < i < |fs| ensures gs[i] != [] { assert gs[i] == gaps[i - 1]; }
    }
    assert forall i :: 0 <= i < |gs| ==> AllWs(gs[i]) by {
      forall i | 0 <= i < |gs| ensures AllWs(gs[i]) {
        if i > 0 { assert gs[i] == gaps[i - 1]; }
      }
    }
    assert forall i :: 0 <= i < |fs| ==> IsField(fs[i]) by {
      forall i | 0 <= i < |fs| ensures IsField(fs[i]) {
        if i > 0 { assert fs[i] == fields[i - 1]; }
      }
    }
    assert forall i :: 0 <= i < |fs| && i < maxsplit ==> IsWord(fs[i]) by {
      forall i | 0 <= i < |fs| && i < maxsplit ensures IsWord(fs[i]) {
        if i > 0 { assert fs[i] == fields[i - 1]; }
      }
    }
    assert |fs| == maxsplit + 1 ==> gs[|fs|] == gaps[|fields|];
  }

  lemma ConcatAssoc<T>(a: seq<T>, b: seq<T>, c: seq<T>)
    ensures a + (b + c) == a + b + c
  {
  }

  /** One step of `SplitWs` and `SplitGaps`: the leading whitespace, the
      word after it, and the rest. */
  lemma SplitWsStep(s: string, maxsplit: nat)
    requires DropWs(s) != [] && maxsplit > 0
    ensures var t := DropWs(s); var k := WordLen(t); var lead := s[..|s| - |t|];
            && SplitWs(s, maxsplit) == [t[..k]] + SplitWs(t[k..], maxsplit - 1)
            && SplitGaps(s, maxsplit) == [lead] + SplitGaps(t[k..], maxsplit - 1)
  {
  }

  /** The pieces of that step rebuild `s`. */
  lemma SplitWsStepPieces(s: string)
    requires DropWs(s) != []
    ensures var t := DropWs(s); var k := WordLen(t); var lead := s[..|s| - |t|];
            && s == lead + t[..k] + t[k..]
            && AllWs(lead) && IsWord(t[..k])
            && (t[k..] == [] || IsWs(t[k..][0]))
  {
    var t := DropWs(s);
    var k := WordLen(t);
    DropWsSplits(s);
    assert t == t[..k] + t[k..];
    ConcatAssoc(s[..|s| - |t|], t[..k], t[k..]);
  }

  /** After a word, a non-empty split starts behind a non-empty gap. */
  lemma GapAfterWord(after: string, maxsplit: nat)
    requires after == [] || IsWs(after[0])
    ensures SplitWs(after, maxsplit) != [] ==>
              |SplitGaps(after, maxsplit)| > 0 && SplitGaps(after, maxsplit)[0] != []
  {
    if SplitWs(after, maxsplit) != [] {
      assert DropWs(after) != [];
      DropWsSplits(after);
    }
  }

  /** The inductive step of `SplitWsIsSplit`. */
  lemma SplitWsIsSplitCons(s: string, maxsplit: nat)
    requires DropWs(s) != [] && maxsplit > 0
    requires var t := DropWs(s); var after := t[WordLen(t)..];
             IsSplitOf(after, maxsplit - 1, SplitWs(after, maxsplit - 1), SplitGaps(after, maxsplit - 1))
    ensures IsSplitOf(s, maxsplit, SplitWs(s, maxsplit), SplitGaps(s, maxsplit))
  {
    var t := DropWs(s);
    var k := WordLen(t);
    var after := t[k..];
    SplitWsStep(s, maxsplit);
    SplitWsStepPieces(s);
    GapAfterWord(after, maxsplit - 1);
    SplitOfCons(s[..|s| - |t|], t[..k], after, maxsplit,
                SplitWs(after, maxsplit - 1), SplitGaps(after, maxsplit - 1));
  }

  /** `SplitWs` returns a split in the sense of `IsSplitOf`: putting the
      dropped whitespace back between its fields rebuilds `s`. */
  lemma {:induction false} SplitWsIsSplit(s: string, maxsplit: nat)
    ensures IsSplitOf(s, maxsplit, SplitWs(s, maxsplit), SplitGaps(s, maxsplit))
    decreases |s|
  {
    var t := DropWs(s);
    DropWsSplits(s);
    if t == [] {
      assert s[..|s|] == s;
    } else if maxsplit == 0 {
      var lead := s[..|s| - |t|];
      assert Interleave([[]], []) == [];
      assert Interleave([lead, []], [t]) == lead + t + [];
    } else {
      var after := t[WordLen(t)..];
      SplitWsIsSplit(after, maxsplit - 1);
      SplitWsIsSplitCons(s, maxsplit);
    }
  }

  /** Dropping the first field and the gap before it leaves a split of
      the rest with a limit one lower. */
  lemma SplitOfTail(s: string, maxsplit: nat, fields: seq<string>, gaps: seq<string>)
    requires IsSplitOf(s, maxsplit, fields, gaps)
    requires fields != [] && maxsplit > 0
    ensures var rest := Interleave(gaps[1..], fields[1..]);
            && s == gaps[0] + fields[0] + rest
            && IsSplitOf(rest, maxsplit - 1, fields[1..], gaps[1..])
            && (rest == [] || IsWs(rest[0]))
  {
    var rest := Interleave(gaps[1..], fields[1..]);
    var fs := fields[1..];
    var gs := gaps[1..];
    assert forall i :: 0 <= i < |gs| ==> AllWs(gs[i]) by {
      forall i | 0 <= i < |gs| ensures AllWs(gs[i]) { assert gs[i] == gaps[i + 1]; }
    }
    assert forall i :: 0 < i < |fs| ==> gs[i] != [] by {
      forall i | 0 < i < |fs| ensures gs[i] != [] { assert gs[i] == gaps[i + 1]; }
    }
    assert forall i :: 0 <= i < |fs| ==> IsField(fs[i]) by {
      forall i | 0 <= i < |fs| ensures IsField(fs[i]) { assert fs[i] == fields[i + 1]; }
    }
    assert forall i :: 0 <= i < |fs| && i < maxsplit - 1 ==> IsWord(fs[i]) by {
      forall i | 0 <= i < |fs| && i < maxsplit - 1 ensures IsWord(fs[i]) { assert fs[i] == fields[i + 1]; }
    }
    assert |fs| == maxsplit ==> gs[|fs|] == gaps[|fields|];
    if fs != [] {
      assert rest == gs[0] + fs[0] + Interleave(gs[1..], fs[1..]);
      assert gs[0] == gaps[1] && gaps[1] != [] && AllWs(gaps[1]);
      assert rest[0] == gs[0][0];
    } else {
      assert rest == gs[0];
      if rest != [] { assert AllWs(gs[0]); }
    }
  }

  /** A split in the sense of `IsSplitOf` is the one `SplitWs` computes, so
      `SplitWs` returns exactly the fields the description allows. */
  lemma {:induction false} SplitOfIsSplitWs(s: string, maxsplit: nat, fields: seq<string>, gaps: seq<string>)
    requires IsSplitOf(s, maxsplit, fields, gaps)
    ensures SplitWs(s, maxsplit) == fields
    decreases |fields|
  {
    if fields == [] {
      assert s == gaps[0];
      DropWsOfGap(s, []);
      assert s + [] == s;
    } else if maxsplit == 0 {
      assert gaps[1] == [];
      assert Interleave(gaps[1..], fields[1..]) == [];
      assert s == gaps[0] + fields[0] + [];
      assert gaps[0] + fields[0] + [] == gaps[0] + fields[0];
      DropWsOfGap(gaps[0], fields[0]);
      assert fields == [fields[0]];
    } else {
      SplitOfTail(s, maxsplit, fields, gaps);
      var rest := Interleave(gaps[1..], fields[1..]);
      var f := fields[0];
      assert s == gaps[0] + (f + rest);
      assert (f + rest)[0] == f[0];
      DropWsOfGap(gaps[0], f + rest);
      WordLenOfWord(f, rest);
      assert (f + rest)[..|f|] == f && (f + rest)[|f|..] == rest;
      SplitOfIsSplitWs(rest, maxsplit - 1, fields[1..], gaps[1..]);
      assert fields == [f] + fields[1..];
    }
  }

  /** Python's `' '.join(parts)`. */
  function JoinSp(parts: seq<string>): string
  {
    if |parts| == 0 then []
    else if |parts| == 1 then parts[0]
    else parts[0] + " " + JoinSp(parts[1..])
  }

  /** Putting the first element back in front of a split of the rest. */
  lemma PrefixCons<T>(s: seq<T>, whole: seq<T>, restSplit: seq<T>, tail: seq<T>, k: nat)
    requires 0 < k < |s|
    requires whole == [s[0]] + restSplit
    requires restSplit == s[1..][..k - 1] + tail
    ensures whole == s[..k] + tail
  {
    assert [s[0]] + s[1..][..k - 1] == s[..k];
  }

  /** Joining puts a space after the first part, so the split cuts it off. */
  lemma SplitJoinStep(parts: seq<string>, n: nat)
    requires |parts| > 1 && IsWord(parts[0]) && n > 0
    ensures SplitWs(JoinSp(parts), n) == [parts[0]] + SplitWs(JoinSp(parts[1..]), n - 1)
  {
    var tail := JoinSp(parts[1..]);
    assert JoinSp(parts) == parts[0] + (" " + tail);
    SplitAfterWord(parts[0], " " + tail, n - 1);
    SplitAfterSpace(tail, n - 1);
  }

  lemma TailWords(parts: seq<string>)
    requires |parts| >= 1
    requires forall i :: 0 <= i < |parts| - 1 ==> IsWord(parts[i])
    ensures forall i :: 0 <= i < |parts[1..]| - 1 ==> IsWord(parts[1..][i])
  {
    forall i | 0 <= i < |parts[1..]| - 1 ensures IsWord(parts[1..][i]) {
      assert parts[1..][i] == parts[i + 1];
    }
  }

  /** The inductive step of `SplitJoin`: from the split of the parts after
      the first to the split of all of them. */
  lemma SplitJoinCons(parts: seq<string>, n: nat)
    requires |parts| > 1 && IsWord(parts[0]) && n >= |parts| - 1
    requires SplitWs(JoinSp(parts[1..]), n - 1)
          == parts[1..][..|parts[1..]| - 1] + SplitWs(parts[1..][|parts[1..]| - 1], n - 1 - (|parts[1..]| - 1))
    ensures SplitWs(JoinSp(parts), n)
         == parts[..|parts| - 1] + SplitWs(parts[|parts| - 1], n - (|parts| - 1))
  {
    var k := |parts| - 1;
    var rest := parts[1..];
    var last := SplitWs(parts[k], n - k);
    var tailSplit := SplitWs(JoinSp(rest), n - 1);
    SplitJoinStep(parts, n);
    assert tailSplit == rest[..k - 1] + last by {
      assert rest[|rest| - 1] == parts[k];
      assert n - 1 - (|rest| - 1) == n - k;
    }
    PrefixCons(parts, SplitWs(JoinSp(parts), n), tailSplit, last, k);
  }

  /** Splitting a space-joined line with a limit of at least one less than
      its number of parts gives back all but the last part word for word,
      whatever the last part is. */
  lemma {:induction false} SplitJoin(parts: seq<string>, n: nat)
    requires |parts| >= 1
    requires forall i :: 0 <= i < |parts| - 1 ==> IsWord(parts[i])
    requires n >= |parts| - 1
    ensures SplitWs(JoinSp(parts), n)
         == parts[..|parts| - 1] + SplitWs(parts[|parts| - 1], n - (|parts| - 1))
  {
    if |parts| > 1 {
      TailWords(parts);
      SplitJoin(parts[1..], n - 1);
      SplitJoinCons(parts, n);
    }
  }

  /** The round trip: `' '.join` of words and a final field, split with the
      matching limit, gives the parts back. */
  lemma {:induction false} SplitJoinExact(parts: seq<string>)
    requires |parts| >= 1
    requires forall i :: 0 <= i < |parts| - 1 ==> IsWord(parts[i])
    requires IsField(parts[|parts| - 1])
    ensures SplitWs(JoinSp(parts), |parts| - 1) == parts
  {
    var k := |parts| - 1;
    var r := SplitWs(JoinSp(parts), k);
    SplitJoin(parts, k);
    SplitField(parts[k]);
    assert r == parts[..k] + [parts[k]];
    assert parts[..k] + [parts[k]] == parts;
  }

  /** `s` with every whitespace character removed. */
  function RemoveWs(s: string): (r: string)
    ensures |r| <= |s|
    ensures NoWs(r)
  {
    if s == [] then []
    else (if IsWs(s[0]) then [] else [s[0]]) + RemoveWs(s[1..])
  }

  lemma {:induction false} RemoveWsConcat(a: string, b: string)
    ensures RemoveWs(a + b) == RemoveWs(a) + RemoveWs(b)
  {
    if a != [] {
      assert (a + b)[0] == a[0];
      assert (a + b)[1..] == a[1..] + b;
      RemoveWsConcat(a[1..], b);
    } else {
      assert a + b == b;
    }
  }

  lemma {:induction false} RemoveWsOfLeadingWs(s: string)
    ensures RemoveWs(DropWs(s)) == RemoveWs(s)
  {
    if s != [] && IsWs(s[0]) {
      RemoveWsOfLeadingWs(s[1..]);
    }
  }

  lemma {:induction false} RemoveWsOfNoWs(s: string)
    requires NoWs(s)
    ensures RemoveWs(s) == s
  {
    if s != [] {
      RemoveWsOfNoWs(s[1..]);
    }
  }

  function Concat(parts: seq<string>): string
  {
    if parts == [] then [] else parts[0] + Concat(parts[1..])
  }

  /** The first word of a split loses nothing, given that the rest does not. */
  lemma SplitWsLosesOnlyWsCons(s: string, maxsplit: nat)
    requires DropWs(s) != [] && maxsplit > 0
    requires var t := DropWs(s);
             RemoveWs(Concat(SplitWs(t[WordLen(t)..], maxsplit - 1))) == RemoveWs(t[WordLen(t)..])
    ensures RemoveWs(Concat(SplitWs(s, maxsplit))) == RemoveWs(s)
  {
    var t := DropWs(s);
    var k := WordLen(t);
    var word := t[..k];
    var after := t[k..];
    var r := SplitWs(s, maxsplit);
    var tail := SplitWs(after, maxsplit - 1);
    assert r == [word] + tail;
    assert r[1..] == tail;
    assert Concat(r) == word + Concat(tail);
    RemoveWsConcat(word, Concat(tail));
    RemoveWsConcat(word, after);
    RemoveWsOfNoWs(word);
    assert t == word + after;
    RemoveWsOfLeadingWs(s);
  }

  /** Splitting loses nothing but whitespace. */
  lemma {:induction false} SplitWsLosesOnlyWs(s: string, maxsplit: nat)
    ensures RemoveWs(Concat(SplitWs(s, maxsplit))) == RemoveWs(s)
    decreases |s|
  {
    var t := DropWs(s);
    if t != [] && maxsplit > 0 {
      SplitWsLosesOnlyWs(t[WordLen(t)..], maxsplit - 1);
      SplitWsLosesOnlyWsCons(s, maxsplit);
    } else if t != [] {
      RemoveWsOfLeadingWs(s);
      assert Concat([t]) == t + [];
      assert t + [] == t;
    } else {
      RemoveWsOfLeadingWs(s);
    }
  }

  /** Python's `sub in s` for strings. */
  predicate Contains(s: string, sub: string)
  {
    exists i :: 0 <= i <= |s| - |sub| && sub <= s[i..]
  }

  lemma ContainsItself(s: string)
    ensures Contains(s, s)
  {
    assert s <= s[0..];
  }

  /** Python's `s.split(sep)[0]`: the part of `s` before the first `sep`,
      or all of `s` when there is none. */
  function BeforeFirst(s: string, sep: char): (r: string)
    ensures r <= s
    ensures sep !in r
    ensures r == s || s[|r|] == sep
  {
    if s == [] || s[0] == sep then [] else [s[0]] + BeforeFirst(s[1..], sep)
  }

  /** The cut at the first `sep` falls where `w`, which holds none, ends. */
  lemma {:induction false} BeforeFirstUpTo(w: string, sep: char, rest: string)
    requires sep !in w && rest != [] && rest[0] == sep
    ensures BeforeFirst(w + rest, sep) == w
    decreases |w|
  {
    if w == [] {
      assert w + rest == rest;
    } else {
      assert (w + rest)[0] == w[0];
      assert (w + rest)[1..] == w[1..] + rest;
      BeforeFirstUpTo(w[1..], sep, rest);
    }
  }
}
