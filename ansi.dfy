/**
  The escape-sequence stripper `strip_ansi` (termphyrio-v2.py:11-13).

  The source removes, with one regular-expression substitution, every ESC
  followed either by one Fe character or by '[', parameter bytes,
  intermediate bytes and a final byte. The substitution scans the text
  left to right, drops each match and copies every other character. The model
  is that scanner over a sequence of characters: at each position `MatchLen`
  decides whether a recognised sequence starts there and how long it is.
  The recognised sequences themselves are defined independently, by
  `IsEscFe` (section 5.3 of ECMA-48) and `IsCsi` (section 5.4 of ECMA-48).
 */
module Ansi {
  import opened Wrappers

  /** The escape character, U+001B. */
  const ESC: char := '\U{1B}'

  /** Fe: the character after ESC in a two-character escape, 0x40-0x5F without '['. */
  predicate IsFe(c: char) { '@' <= c <= 'Z' || '\\' <= c <= '_' }

  /** Parameter bytes of a control sequence, 0x30-0x3F. */
  predicate IsParam(c: char) { '0' <= c <= '?' }

  /** Intermediate bytes of a control sequence, 0x20-0x2F. */
  predicate IsInter(c: char) { ' ' <= c <= '/' }

  /** The final byte of a control sequence, 0x40-0x7E. */
  predicate IsFinal(c: char) { '@' <= c <= '~' }

  /** Zero or more parameter bytes followed by zero or more intermediate bytes. */
  predicate ParamsThenInters(u: string) {
    && (forall i :: 0 <= i < |u| ==> IsParam(u[i]) || IsInter(u[i]))
    && (forall i, j :: 0 <= i < j < |u| && IsInter(u[i]) ==> !IsParam(u[j]))
  }

  /** A two-character escape sequence ESC Fe. */
  predicate IsEscFe(t: string) {
    |t| == 2 && t[0] == ESC && IsFe(t[1])
  }

  /** A control sequence ESC '[' P* I* F. */
  predicate IsCsi(t: string) {
    && |t| >= 3 && t[0] == ESC && t[1] == '['
    && ParamsThenInters(t[2..|t| - 1])
    && IsFinal(t[|t| - 1])
  }

  /** A sequence the stripper removes. */
  predicate IsEscSeq(t: string) { IsEscFe(t) || IsCsi(t) }

  /** Some prefix of `s` is a sequence the stripper removes. */
  predicate StartsWithEscSeq(s: string) {
    exists n :: 0 <= n <= |s| && IsEscSeq(s[..n])
  }

  /** The end of the longest run of characters satisfying `inClass` that starts at `i`. */
  function RunEnd(s: string, i: nat, inClass: char -> bool): (j: nat)
    requires i <= |s|
    ensures i <= j <= |s|
    ensures j == |s| || !inClass(s[j])
    decreases |s| - i
  {
    if i < |s| && inClass(s[i]) then RunEnd(s, i + 1, inClass) else i
  }

  /** Every character of the run is in the class, so the run is the longest one. */
  lemma {:induction false} RunEndAllIn(s: string, i: nat, inClass: char -> bool)
    requires i <= |s|
    ensures forall k :: i <= k < RunEnd(s, i, inClass) ==> inClass(s[k])
    decreases |s| - i
  {
    if i < |s| && inClass(s[i]) { RunEndAllIn(s, i + 1, inClass); }
  }

  /**
    The length of the recognised sequence at the start of `s`, if one starts
    there. Parameter and intermediate bytes are taken greedily; the three byte
    classes are disjoint, so the greedy match is the only one.
   */
  function MatchLen(s: string): (r: Option<nat>)
    ensures r.Some? ==> 2 <= r.value <= |s|
  {
    if |s| >= 2 && s[0] == ESC && IsFe(s[1]) then Some(2)
    else if |s| >= 2 && s[0] == ESC && s[1] == '[' then
      var p := RunEnd(s, 2, IsParam);
      var q := RunEnd(s, p, IsInter);
      if q < |s| && IsFinal(s[q]) then Some(q + 1) else None
    else None
  }

  /** What is found is a recognised sequence. */
  lemma MatchLenSound(s: string)
    requires MatchLen(s).Some?
    ensures IsEscSeq(s[..MatchLen(s).value])
  {
    if !(|s| >= 2 && s[0] == ESC && IsFe(s[1])) {
      var p := RunEnd(s, 2, IsParam);
      var q := RunEnd(s, p, IsInter);
      RunEndAllIn(s, 2, IsParam);
      RunEndAllIn(s, p, IsInter);
      var u := s[..q + 1][2..q];
      assert u == s[2..q];
      forall i | 0 <= i < |u| ensures IsParam(u[i]) || IsInter(u[i]) {
        assert u[i] == s[i + 2];
      }
      forall i, j | 0 <= i < j < |u| && IsInter(u[i]) ensures !IsParam(u[j]) {
        assert u[i] == s[i + 2] && u[j] == s[j + 2];
      }
    }
  }

  /** Every recognised prefix is found: with `MatchLenSound`, an if-and-only-if. */
  lemma MatchLenComplete(s: string, n: nat)
    requires n <= |s| && IsEscSeq(s[..n])
    ensures MatchLen(s) == Some(n)
  {
    var t := s[..n];
    if IsCsi(t) {
      var u := t[2..n - 1];
      assert !IsFe(s[1]);
      var p := RunEnd(s, 2, IsParam);
      var q := RunEnd(s, p, IsInter);
      RunEndAllIn(s, 2, IsParam);
      RunEndAllIn(s, p, IsInter);
      // the parameter run ends inside the sequence, at its first non-parameter
      assert p <= n - 1;
      // from there on, up to the final byte, everything is intermediate
      forall k | p <= k < n - 1 ensures IsInter(s[k]) {
        assert u[k - 2] == s[k];
        if p < n - 1 {
          assert u[p - 2] == s[p];
          assert !IsParam(u[p - 2]);
        }
      }
      assert q == n - 1;
    }
  }

  /** No two different prefixes of a text are both recognised sequences. */
  lemma EscSeqPrefixFree(s: string, m: nat, n: nat)
    requires m <= n <= |s| && IsEscSeq(s[..m]) && IsEscSeq(s[..n])
    ensures m == n
  {
    MatchLenComplete(s, m);
    MatchLenComplete(s, n);
  }

  /** The text with every recognised sequence removed, as `strip_ansi` returns it. */
  function StripAnsi(s: string): (r: string)
    ensures |r| <= |s|
    decreases |s|
  {
    if s == [] then []
    else match MatchLen(s)
      case Some(n) => StripAnsi(s[n..])
      case None => [s[0]] + StripAnsi(s[1..])
  }

  /** `a` can be obtained from `b` by deleting characters. */
  predicate IsSubsequence(a: string, b: string)
    decreases |b|
  {
    if a == [] then true
    else if b == [] then false
    else (a[0] == b[0] && IsSubsequence(a[1..], b[1..])) || IsSubsequence(a, b[1..])
  }

  lemma {:induction false} SubsequenceOfLonger(a: string, c: string, b: string)
    requires IsSubsequence(a, b)
    ensures IsSubsequence(a, c + b)
    decreases |c|
  {
    if c != [] && a != [] {
      SubsequenceOfLonger(a, c[1..], b);
      assert (c + b)[1..] == c[1..] + b;
      assert IsSubsequence(a, (c + b)[1..]);
    } else if c == [] {
      assert c + b == b;
    }
  }

  /** The stripper only deletes: what it keeps stays in its original order. */
  lemma {:induction false} StripIsSubsequence(s: string)
    ensures IsSubsequence(StripAnsi(s), s)
    decreases |s|
  {
    if s != [] {
      match MatchLen(s)
      case Some(n) =>
        StripIsSubsequence(s[n..]);
        SubsequenceOfLonger(StripAnsi(s[n..]), s[..n], s[n..]);
        assert s[..n] + s[n..] == s;
      case None =>
        StripIsSubsequence(s[1..]);
        var r := StripAnsi(s);
        assert r[0] == s[0] && r[1..] == StripAnsi(s[1..]);
    }
  }

  /** Text that starts with no ESC passes through unchanged. */
  lemma {:induction false} StripPlainPrefix(v: string, rest: string)
    requires ESC !in v
    ensures StripAnsi(v + rest) == v + StripAnsi(rest)
    decreases |v|
  {
    if v != [] {
      assert v[0] in v;
      assert ESC !in v[1..] by {
        forall k | 0 <= k < |v[1..]| ensures v[1..][k] != ESC { assert v[1..][k] in v; }
      }
      var s := v + rest;
      calc {
        StripAnsi(s);
        { assert s[0] == v[0]; assert MatchLen(s) == None; }
        [v[0]] + StripAnsi(s[1..]);
        { assert s[1..] == v[1..] + rest; }
        [v[0]] + StripAnsi(v[1..] + rest);
        { StripPlainPrefix(v[1..], rest); }
        [v[0]] + (v[1..] + StripAnsi(rest));
        { assert v == [v[0]] + v[1..]; }
        v + StripAnsi(rest);
      }
    } else {
      assert v + rest == rest;
    }
  }

  /** Text without ESC is returned unchanged. */
  lemma StripNoEsc(s: string)
    requires ESC !in s
    ensures StripAnsi(s) == s
  {
    StripPlainPrefix(s, []);
    assert s + [] == s;
  }

  /** A recognised sequence at the front is removed, whatever follows. */
  lemma StripRemoves(t: string, rest: string)
    requires IsEscSeq(t)
    ensures StripAnsi(t + rest) == StripAnsi(rest)
  {
    var s := t + rest;
    assert s[..|t|] == t;
    MatchLenComplete(s, |t|);
    assert s[|t|..] == rest;
  }

  /** A character that starts no recognised sequence is kept, a stray ESC included. */
  lemma StripKeeps(s: string)
    requires s != [] && !StartsWithEscSeq(s)
    ensures StripAnsi(s) == [s[0]] + StripAnsi(s[1..])
  {
    if MatchLen(s).Some? {
      MatchLenSound(s);
      assert false;
    }
  }

  /** One step of the scanner at the front of a non-empty text: what it keeps and how far it moves. */
  function Advance(s: string): (r: (string, nat))
    requires s != []
    ensures 1 <= r.1 <= |s| && |r.0| <= 1
  {
    match MatchLen(s)
    case Some(n) => ([], n)
    case None => ([s[0]], 1)
  }

  lemma StripAdvance(s: string)
    requires s != []
    ensures StripAnsi(s) == Advance(s).0 + StripAnsi(s[Advance(s).1..])
  {
  }

  /** An ESC that is the last character is kept literally. */
  lemma TrailingEscKept(a: string)
    ensures StripAnsi(a + [ESC]) == StripAnsi(a) + [ESC]
  {
    SplitBeforeEsc(a, [ESC]);
    assert StripAnsi([ESC]) == [ESC] + StripAnsi([]);
  }

  /** ESC '[' with parameters, intermediates and no final byte is kept literally. */
  lemma UnterminatedCsiKept(u: string)
    requires ParamsThenInters(u)
    ensures StripAnsi([ESC, '['] + u) == [ESC, '['] + u
  {
    var s := [ESC, '['] + u;
    var p := RunEnd(s, 2, IsParam);
    var q := RunEnd(s, p, IsInter);
    forall k | p <= k < |s| ensures IsInter(s[k]) {
      assert s[k] == u[k - 2];
      if p < |s| {
        assert s[p] == u[p - 2];
      }
    }
    assert q == |s|;
    assert MatchLen(s) == None;
    assert ESC !in s[1..] by {
      forall k | 1 <= k < |s| ensures s[k] != ESC {
        if k >= 2 { assert s[k] == u[k - 2]; }
      }
    }
    StripNoEsc(s[1..]);
  }

  /** If every ESC of the text starts a recognised sequence, no ESC is left. */
  lemma {:induction false} StripNoStrayEsc(s: string)
    requires forall i :: 0 <= i < |s| && s[i] == ESC ==> StartsWithEscSeq(s[i..])
    ensures ESC !in StripAnsi(s)
    decreases |s|
  {
    if s != [] {
      match MatchLen(s)
      case Some(n) =>
        forall i | 0 <= i < |s[n..]| && s[n..][i] == ESC
          ensures StartsWithEscSeq(s[n..][i..])
        {
          assert s[n..][i..] == s[n + i..];
        }
        StripNoStrayEsc(s[n..]);
      case None =>
        if s[0] == ESC {
          assert s[0..] == s;
          var n :| 0 <= n <= |s| && IsEscSeq(s[..n]);
          MatchLenComplete(s, n);
          assert false;
        }
        forall i | 0 <= i < |s[1..]| && s[1..][i] == ESC
          ensures StartsWithEscSeq(s[1..][i..])
        {
          assert s[1..][i..] == s[1 + i..];
        }
        StripNoStrayEsc(s[1..]);
    }
  }

  /** A run that meets a character outside its class ends there; what follows does not matter. */
  lemma {:induction false} RunEndBlocked(a: string, w: string, i: nat, inClass: char -> bool)
    requires i <= |a| && w != [] && !inClass(w[0])
    ensures RunEnd(a + w, i, inClass) == RunEnd(a, i, inClass)
    decreases |a| - i
  {
    if i < |a| {
      assert (a + w)[i] == a[i];
      if inClass(a[i]) { RunEndBlocked(a, w, i + 1, inClass); }
    } else {
      assert (a + w)[i] == w[0];
    }
  }

  /** An ESC ends every sequence that starts before it. */
  lemma MatchLenBeforeEsc(a: string, w: string)
    requires a != [] && w != [] && w[0] == ESC
    ensures MatchLen(a + w) == MatchLen(a)
  {
    var s := a + w;
    if |a| >= 2 {
      assert s[0] == a[0] && s[1] == a[1];
      if a[0] == ESC && a[1] == '[' {
        RunEndBlocked(a, w, 2, IsParam);
        var p := RunEnd(a, 2, IsParam);
        RunEndBlocked(a, w, p, IsInter);
        var q := RunEnd(a, p, IsInter);
        if q < |a| { assert s[q] == a[q]; } else { assert s[q] == ESC; }
      }
    } else {
      assert s[0] == a[0] && s[1] == ESC;
    }
  }

  /** Cutting a text right before an ESC does not change what is stripped. */
  lemma {:induction false} SplitBeforeEsc(a: string, w: string)
    requires w != [] && w[0] == ESC
    ensures StripAnsi(a + w) == StripAnsi(a) + StripAnsi(w)
    decreases |a|
  {
    if a != [] {
      var s := a + w;
      MatchLenBeforeEsc(a, w);
      match MatchLen(a)
      case Some(n) =>
        assert s[n..] == a[n..] + w;
        SplitBeforeEsc(a[n..], w);
        assert StripAnsi(s) == StripAnsi(s[n..]);
        assert StripAnsi(a) == StripAnsi(a[n..]);
      case None =>
        assert s[0] == a[0] && s[1..] == a[1..] + w;
        SplitBeforeEsc(a[1..], w);
        assert StripAnsi(s) == [a[0]] + StripAnsi(a[1..] + w);
        assert StripAnsi(a) == [a[0]] + StripAnsi(a[1..]);
    } else {
      assert a + w == w;
    }
  }
}
