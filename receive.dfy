/**
  What a session tab shows of the shell's output (termphyrio-v2.py:142-151).

  The reader loop takes the channel's output in chunks of up to 4096 bytes,
  decodes each chunk and strips each one on its own before appending it to
  the display. `ChunkwiseDisplay` is that display. A sequence cut by a chunk
  boundary is then only partly removed (`SplitSequenceSurvives`). The
  buffered filter below (`Feed`, `FeedAll`, `BufferedDisplay`) holds back an
  unfinished sequence at the end of a chunk until the next chunk decides it,
  and shows exactly what stripping the whole stream at once would show
  (`BufferedDisplayCorrect`).
 */
module Receive {
  import opened Ansi

  /** The chunks joined in the order they were received. */
  function Concat(chunks: seq<string>): string {
    if chunks == [] then [] else chunks[0] + Concat(chunks[1..])
  }

  /** The display as the source builds it: every chunk stripped separately. */
  function ChunkwiseDisplay(chunks: seq<string>): (r: string)
    ensures |r| <= |Concat(chunks)|
  {
    if chunks == [] then [] else StripAnsi(chunks[0]) + ChunkwiseDisplay(chunks[1..])
  }

  /**
    A control sequence cut right before its final byte reaches the display
    whole, while stripping the joined stream removes it: for instance the
    chunks `ESC [ 3 1` and `m`.
   */
  lemma SplitSequenceSurvives(u: string, f: char)
    requires ParamsThenInters(u) && IsFinal(f)
    ensures ChunkwiseDisplay([[ESC, '['] + u, [f]]) == [ESC, '['] + u + [f]
    ensures StripAnsi(Concat([[ESC, '['] + u, [f]])) == []
  {
    var a, b := [ESC, '['] + u, [f];
    var cs := [a, b];
    UnterminatedCsiKept(u);
    StripNoEsc(b);
    assert cs[1..] == [b] && [b][1..] == [];
    assert ChunkwiseDisplay(cs) == StripAnsi(a) + (StripAnsi(b) + ChunkwiseDisplay([]));
    assert Concat(cs) == a + (b + Concat([]));
    var whole := a + b;
    assert whole[2..|whole| - 1] == u;
    assert IsCsi(whole);
    StripRemoves(whole, []);
    assert whole + [] == whole;
  }

  /** The colour code `ESC [ 3 1 m` cut before `m`: the display differs from the stripped stream. */
  lemma SplitColourCodeShown()
    ensures ChunkwiseDisplay([[ESC, '[', '3', '1'], ['m']]) != StripAnsi(Concat([[ESC, '[', '3', '1'], ['m']]))
  {
    var u := ['3', '1'];
    assert ParamsThenInters(u) by { assert IsParam(u[0]) && IsParam(u[1]); }
    SplitSequenceSurvives(u, 'm');
    assert [ESC, '['] + u == [ESC, '[', '3', '1'];
  }

  /**
    An ESC alone, or ESC '[' with parameters and intermediates so far: the
    start of a sequence that the next characters may still complete.
   */
  predicate Incomplete(w: string) {
    |w| >= 1 && w[0] == ESC && (|w| == 1 || (w[1] == '[' && ParamsThenInters(w[2..])))
  }

  /** No suffix of `t` is an unfinished sequence: what follows `t` cannot change how `t` is stripped. */
  predicate Settled(t: string) {
    forall e :: 0 <= e < |t| ==> !Incomplete(t[e..])
  }

  lemma SettledSuffix(t: string, m: nat)
    requires Settled(t) && m <= |t|
    ensures Settled(t[m..])
  {
    forall e | 0 <= e < |t[m..]| ensures !Incomplete(t[m..][e..]) {
      assert t[m..][e..] == t[m + e..];
    }
  }

  lemma {:induction false} RunEndExtend(s: string, rest: string, i: nat, inClass: char -> bool)
    requires i <= |s| && RunEnd(s, i, inClass) < |s|
    ensures RunEnd(s + rest, i, inClass) == RunEnd(s, i, inClass)
    decreases |s| - i
  {
    assert (s + rest)[i] == s[i];
    if inClass(s[i]) { RunEndExtend(s, rest, i + 1, inClass); }
  }

  /** When the parameter and intermediate runs after ESC '[' reach the end, what follows ESC '[' is P* I*. */
  lemma RunsToEnd(t: string)
    requires |t| >= 2
    ensures RunEnd(t, RunEnd(t, 2, IsParam), IsInter) == |t| ==> ParamsThenInters(t[2..])
  {
    var p := RunEnd(t, 2, IsParam);
    var q := RunEnd(t, p, IsInter);
    if q == |t| {
      RunEndAllIn(t, 2, IsParam);
      RunEndAllIn(t, p, IsInter);
      var u := t[2..];
      forall i | 0 <= i < |u| ensures IsParam(u[i]) || IsInter(u[i]) {
        assert u[i] == t[i + 2];
      }
      forall i, j | 0 <= i < j < |u| && IsInter(u[i]) ensures !IsParam(u[j]) {
        assert u[i] == t[i + 2] && u[j] == t[j + 2];
      }
    }
  }

  /** A text starting with ESC that is not unfinished has its match decided already. */
  lemma MatchLenSettled(t: string, rest: string)
    requires t != [] && t[0] == ESC && !Incomplete(t)
    ensures MatchLen(t + rest) == MatchLen(t)
  {
    var s := t + rest;
    assert s[0] == t[0] && s[1] == t[1];
    if t[1] == '[' {
      var p := RunEnd(t, 2, IsParam);
      var q := RunEnd(t, p, IsInter);
      RunEndAllIn(t, 2, IsParam);
      RunEndAllIn(t, p, IsInter);
      RunsToEnd(t);
      assert q < |t|;
      RunEndExtend(t, rest, 2, IsParam);
      RunEndExtend(t, rest, p, IsInter);
      assert s[q] == t[q];
    }
  }

  /** A settled text is stripped the same whether or not more text follows it. */
  lemma {:induction false} StripAppendSettled(t: string, rest: string)
    requires Settled(t)
    ensures StripAnsi(t + rest) == StripAnsi(t) + StripAnsi(rest)
    decreases |t|
  {
    if t == [] {
      assert t + rest == rest;
    } else {
      assert (t + rest)[0] == t[0];
      if t[0] == ESC {
        assert t[0..] == t;
        MatchLenSettled(t, rest);
      }
      assert Advance(t + rest) == Advance(t);
      var (kept, n) := Advance(t);
      calc {
        StripAnsi(t + rest);
        { StripAdvance(t + rest); }
        kept + StripAnsi((t + rest)[n..]);
        { assert (t + rest)[n..] == t[n..] + rest; }
        kept + StripAnsi(t[n..] + rest);
        { SettledSuffix(t, n); StripAppendSettled(t[n..], rest); }
        kept + (StripAnsi(t[n..]) + StripAnsi(rest));
        { StripAdvance(t); }
        StripAnsi(t) + StripAnsi(rest);
      }
    }
  }

  /** The chunkwise display is faithful when no boundary cuts a sequence. */
  lemma {:induction false} ChunkwiseDisplayFaithful(chunks: seq<string>)
    requires forall i :: 0 <= i < |chunks| - 1 ==>
      Settled(chunks[i]) || (chunks[i + 1] != [] && chunks[i + 1][0] == ESC)
    ensures ChunkwiseDisplay(chunks) == StripAnsi(Concat(chunks))
  {
    if chunks != [] {
      var tail := chunks[1..];
      forall i | 0 <= i < |tail| - 1
        ensures Settled(tail[i]) || (tail[i + 1] != [] && tail[i + 1][0] == ESC)
      {
        assert tail[i] == chunks[i + 1] && tail[i + 1] == chunks[i + 2];
      }
      ChunkwiseDisplayFaithful(tail);
      if tail == [] {
        assert Concat(chunks) == chunks[0] + [];
        assert Concat(chunks) == chunks[0];
      } else if Settled(chunks[0]) {
        StripAppendSettled(chunks[0], Concat(tail));
      } else {
        assert Concat(tail)[0] == tail[0][0];
        SplitBeforeEsc(chunks[0], Concat(tail));
      }
    }
  }

  /** Where the unfinished sequence at the end of `t[i..]` starts; `|t|` when there is none. */
  function PendingStart(t: string, i: nat): (e: nat)
    requires i <= |t|
    ensures i <= e <= |t|
    decreases |t| - i
  {
    if i == |t| || Incomplete(t[i..]) then i else PendingStart(t, i + 1)
  }

  /** `PendingStart` finds the first unfinished suffix, and there is none before it. */
  lemma {:induction false} PendingStartFinds(t: string, i: nat)
    requires i <= |t|
    ensures PendingStart(t, i) < |t| ==> Incomplete(t[PendingStart(t, i)..])
    ensures forall k :: i <= k < PendingStart(t, i) ==> !Incomplete(t[k..])
    decreases |t| - i
  {
    if !(i == |t| || Incomplete(t[i..])) { PendingStartFinds(t, i + 1); }
  }

  /**
    One read of the buffered filter: the text held back from the previous read
    and the new chunk are joined; everything before an unfinished sequence at
    the end is stripped and shown, and the unfinished sequence is held back.
   */
  function Feed(pending: string, chunk: string): (r: (string, string)) {
    var t := pending + chunk;
    var e := PendingStart(t, 0);
    (StripAnsi(t[..e]), t[e..])
  }

  /** Only an unfinished sequence is held back. */
  lemma FeedHoldsBackUnfinished(pending: string, chunk: string)
    ensures Feed(pending, chunk).1 == [] || Incomplete(Feed(pending, chunk).1)
  {
    PendingStartFinds(pending + chunk, 0);
  }

  /** What is shown plus what is held back strips exactly like the joined input. */
  lemma FeedSound(pending: string, chunk: string, rest: string)
    ensures StripAnsi(pending + chunk + rest) == Feed(pending, chunk).0 + StripAnsi(Feed(pending, chunk).1 + rest)
  {
    var t := pending + chunk;
    var e := PendingStart(t, 0);
    PendingStartFinds(t, 0);
    if e < |t| {
      assert t + rest == t[..e] + (t[e..] + rest);
      SplitBeforeEsc(t[..e], t[e..] + rest);
    } else {
      assert t[..e] == t && t[e..] == [];
      StripAppendSettled(t, rest);
      assert [] + rest == rest;
    }
  }

  /** The buffered filter fed the chunks in order: what it shows, and what it still holds. */
  function FeedAll(pending: string, chunks: seq<string>): (r: (string, string))
    decreases |chunks|
  {
    if chunks == [] then ([], pending)
    else
      var first := Feed(pending, chunks[0]);
      var later := FeedAll(first.1, chunks[1..]);
      (first.0 + later.0, later.1)
  }

  lemma {:induction false} FeedAllSound(pending: string, chunks: seq<string>, rest: string)
    ensures StripAnsi(pending + Concat(chunks) + rest) == FeedAll(pending, chunks).0 + StripAnsi(FeedAll(pending, chunks).1 + rest)
    decreases |chunks|
  {
    if chunks == [] {
      assert pending + Concat(chunks) + rest == pending + rest;
    } else {
      var c, cs := chunks[0], chunks[1..];
      var first := Feed(pending, c);
      var later := FeedAll(first.1, cs);
      var tail := Concat(cs) + rest;
      calc {
        StripAnsi(pending + Concat(chunks) + rest);
        { assert pending + Concat(chunks) + rest == pending + c + tail; }
        StripAnsi(pending + c + tail);
        { FeedSound(pending, c, tail); }
        first.0 + StripAnsi(first.1 + tail);
        { assert first.1 + tail == first.1 + Concat(cs) + rest; }
        first.0 + StripAnsi(first.1 + Concat(cs) + rest);
        { FeedAllSound(first.1, cs, rest); }
        first.0 + (later.0 + StripAnsi(later.1 + rest));
        (first.0 + later.0) + StripAnsi(later.1 + rest);
      }
    }
  }

  /** After any number of reads, only an unfinished sequence is held back, or the initial text when there was no read. */
  lemma {:induction false} FeedAllHoldsBackUnfinished(pending: string, chunks: seq<string>)
    ensures chunks == [] ==> FeedAll(pending, chunks).1 == pending
    ensures chunks != [] ==> FeedAll(pending, chunks).1 == [] || Incomplete(FeedAll(pending, chunks).1)
    decreases |chunks|
  {
    if chunks != [] {
      FeedHoldsBackUnfinished(pending, chunks[0]);
      FeedAllHoldsBackUnfinished(Feed(pending, chunks[0]).1, chunks[1..]);
    }
  }

  /** The buffered display: the filtered reads, then the held-back text once the stream ends. */
  function BufferedDisplay(chunks: seq<string>): string {
    var r := FeedAll([], chunks);
    r.0 + StripAnsi(r.1)
  }

  /** However the stream is cut into chunks, the buffered display strips it as one text. */
  lemma BufferedDisplayCorrect(chunks: seq<string>)
    ensures BufferedDisplay(chunks) == StripAnsi(Concat(chunks))
  {
    FeedAllSound([], chunks, []);
    assert [] + Concat(chunks) + [] == Concat(chunks);
    assert FeedAll([], chunks).1 + [] == FeedAll([], chunks).1;
  }
}
