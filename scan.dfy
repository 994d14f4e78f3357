/** The classification session as values: what sb_process, sb_update_probs and sb_finish do to
    the bytes pushed into the quadgram window and to the per-label accumulators. The class in
    engine.dfy is proved to follow these functions step by step. */
module Scan {
  import opened Hash
  import opened Unicode

  /** The byte pushed at a run boundary and at the end of the input. */
  const Pad: bv8 := 0

  /** The parts of a loaded model a session only reads: the label names in file order and the
      feature table (one score per slot). */
  datatype Table = Table(labels: seq<seq<bv8>>, model: seq<real>)
  {
    /** A successful load leaves at least one label and at least one feature. */
    predicate Valid()
    {
      |labels| >= 1 && |model| >= 1
    }

    /** Every entry is log(n + 1) of a count n >= 0. */
    predicate NonNegative()
    {
      forall k :: 0 <= k < |model| ==> model[k] >= 0.0
    }
  }

  /** The state that survives between calls. `hist` is every byte written to the ring buffer since
      the last sb_init, run boundary or sb_finish, oldest first (its length is buf_pos, and the
      buffer holds its last four bytes); `probs` holds one accumulator per label. */
  datatype Session = Session(hist: seq<bv8>, probs: seq<real>)

  predicate Fits(t: Table, st: Session)
  {
    t.Valid() && |st.probs| == |t.labels|
  }

  /** The table slot sb_update_probs reads for quadgram `gram` and label `i`: the quadgram hash
      continued over the label's name, reduced modulo the number of features. */
  function Slot(t: Table, gram: seq<bv8>, i: nat): (k: nat)
    requires t.Valid() && i < |t.labels|
    ensures k < |t.model|
  {
    (Fold(Fold(Seed, gram), CString(t.labels[i])) as int) % |t.model|
  }

  /** sb_update_probs on values: every accumulator gains the score of its slot. */
  function AddGram(t: Table, probs: seq<real>, gram: seq<bv8>): seq<real>
    requires t.Valid() && |probs| == |t.labels|
  {
    seq(|probs|, i requires 0 <= i < |probs| => probs[i] + t.model[Slot(t, gram, i)])
  }

  /** `buf[pos++ % 4] = b; if (pos >= 4) sb_update_probs(...)`: the byte joins the history, and
      once four bytes are there the last four are scored. */
  function PutByte(t: Table, st: Session, b: bv8): (r: Session)
    requires Fits(t, st)
    ensures Fits(t, r) && r.hist == st.hist + [b]
    ensures |r.hist| < NgramSize ==> r.probs == st.probs
  {
    var h := st.hist + [b];
    Session(h, if |h| >= NgramSize then AddGram(t, st.probs, h[|h| - NgramSize..]) else st.probs)
  }

  /** The bytes of one letter pushed one at a time. */
  function PutAll(t: Table, st: Session, bytes: seq<bv8>): (r: Session)
    requires Fits(t, st)
    ensures Fits(t, r)
    ensures r.hist == st.hist + bytes
    decreases |bytes|
  {
    if bytes == [] then st else PutAll(t, PutByte(t, st, bytes[0]), bytes[1..])
  }

  /** What the scan of sb_process makes of a decoded codepoint: a letter (its raw bytes) or a
      run boundary (any other category). Undecodable bytes produce nothing. */
  datatype Token = Letter(bytes: seq<bv8>) | Boundary

  /** How far sb_process moves after a decoding attempt: one byte past a failure, the length of
      the codepoint otherwise. */
  function Advance(d: Decoded): (n: nat)
    ensures n >= 1 && (d.len > 0 ==> n == d.len)
  {
    if d.len <= 0 then 1 else d.len
  }

  /** The token of the decoding attempt at the front of `text`: none when it fails, otherwise a
      letter with its raw bytes or a run boundary. */
  function Front(o: Oracle, text: seq<bv8>): (r: seq<Token>)
    requires o.Valid() && text != []
    ensures |r| <= 1 && (r == [] <==> o.iterate(text).len <= 0)
  {
    var d := o.iterate(text);
    if d.len <= 0 then [] else [if IsLetter(o.category(d.cp)) then Letter(text[..d.len]) else Boundary]
  }

  /** The tokens of one chunk, in order. Nothing is carried over to the next chunk: a sequence cut
      off by the end of `text` fails to decode and its bytes are skipped one at a time. */
  function Tokens(o: Oracle, text: seq<bv8>): seq<Token>
    requires o.Valid()
    decreases |text|
  {
    if text == [] then [] else Front(o, text) + Tokens(o, text[Advance(o.iterate(text))..])
  }

  /** Every token takes at least one byte of the chunk. */
  lemma {:induction false} TokensBound(o: Oracle, text: seq<bv8>)
    requires o.Valid()
    ensures |Tokens(o, text)| <= |text|
    decreases |text|
  {
    if text != [] {
      TokensBound(o, text[Advance(o.iterate(text))..]);
    }
  }

  /** The slot is the seeded hash of the quadgram's bytes followed by the label's bytes, taken
      as one run of the hash. */
  lemma SlotIsOneFold(t: Table, gram: seq<bv8>, i: nat)
    requires t.Valid() && i < |t.labels|
    ensures Slot(t, gram, i) == (Fold(Seed, gram + CString(t.labels[i])) as int) % |t.model|
  {
    FoldAppend(Seed, gram, CString(t.labels[i]));
  }

  /** A letter pushes its bytes; a boundary pushes one pad byte, then resets the window to the
      single pad byte at position 0 (`buf[0] = '\0'; pos = 1`). */
  function Apply(t: Table, st: Session, tok: Token): (r: Session)
    requires Fits(t, st)
    ensures Fits(t, r)
  {
    match tok
    case Letter(bytes) => PutAll(t, st, bytes)
    case Boundary => Session([Pad], PutByte(t, st, Pad).probs)
  }

  function ApplyAll(t: Table, st: Session, toks: seq<Token>): (r: Session)
    requires Fits(t, st)
    ensures Fits(t, r)
    decreases |toks|
  {
    if toks == [] then st else ApplyAll(t, Apply(t, st, toks[0]), toks[1..])
  }

  /** sb_process / sb_feed on values. */
  function Consume(t: Table, o: Oracle, st: Session, text: seq<bv8>): (r: Session)
    requires Fits(t, st) && o.Valid()
    ensures Fits(t, r)
  {
    ApplyAll(t, st, Tokens(o, text))
  }

  /** The state sb_init leaves: the window holds the pad byte, every accumulator is zero. */
  function Start(t: Table): (r: Session)
    requires t.Valid()
    ensures Fits(t, r)
  {
    Session([Pad], seq(|t.labels|, _ => 0.0))
  }

  /** sb_finish's state change: one final pad byte, then buf_pos = 0. */
  function Flush(t: Table, st: Session): (r: Session)
    requires Fits(t, st)
    ensures Fits(t, r)
  {
    Session([], PutByte(t, st, Pad).probs)
  }

  /** The index sb_finish's scan settles on: it replaces the best so far only on a strictly
      greater score, so it is a maximum and no earlier index reaches it. */
  function ArgMax(p: seq<real>): (k: nat)
    requires |p| > 0
    ensures k < |p|
    ensures forall j :: 0 <= j < |p| ==> p[j] <= p[k]
    ensures forall j :: 0 <= j < k ==> p[j] < p[k]
    decreases |p|
  {
    if |p| == 1 then 0
    else
      var k := ArgMax(p[..|p| - 1]);
      if p[|p| - 1] > p[k] then |p| - 1 else k
  }

  /** The label index sb_finish returns from a session state. */
  function Decide(t: Table, st: Session): (k: nat)
    requires Fits(t, st)
    ensures k < |t.labels|
  {
    ArgMax(Flush(t, st).probs)
  }

  /** sb_detect: sb_init, the whole text, sb_finish. */
  function Classify(t: Table, o: Oracle, text: seq<bv8>): (k: nat)
    requires t.Valid() && o.Valid()
    ensures k < |t.labels|
  {
    Decide(t, Consume(t, o, Start(t), text))
  }

  // ----- one scan step, as the loop of sb_process takes it -----

  /** The state one turn of the scan loop of sb_process leaves, at the front of `text`: unchanged
      when decoding fails, otherwise the letter or the boundary applied. */
  function Step(t: Table, o: Oracle, st: Session, text: seq<bv8>): (r: Session)
    requires Fits(t, st) && o.Valid() && text != []
    ensures Fits(t, r)
  {
    var d := o.iterate(text);
    if d.len <= 0 then st
    else Apply(t, st, if IsLetter(o.category(d.cp)) then Letter(text[..d.len]) else Boundary)
  }

  /** One turn of the scan loop of sb_process: handling the front of `text` leads from `st` to
      `st'`, and the scan goes on with the bytes after it. */
  lemma ConsumeAdvance(t: Table, o: Oracle, st: Session, text: seq<bv8>, st': Session, rest: seq<bv8>)
    requires Fits(t, st) && o.Valid() && text != []
    requires rest == text[Advance(o.iterate(text))..] && st' == Step(t, o, st, text)
    ensures Fits(t, st') && Consume(t, o, st, text) == Consume(t, o, st', rest)
  {
    var toks := Tokens(o, rest);
    if Front(o, text) == [] {
      assert Tokens(o, text) == toks;
    } else {
      assert Tokens(o, text) == Front(o, text) + toks;
      assert (Front(o, text) + toks)[1..] == toks;
    }
  }

  // ----- chunking -----

  /** Two decoding attempts are handled alike by sb_process: both fail, or both read the same
      codepoint from the same number of bytes. */
  predicate Agree(d: Decoded, e: Decoded)
  {
    if d.len <= 0 then e.len <= 0 else d == e
  }

  /** No codepoint straddles the end of `s1`: at every position the scan of `s1` alone stops at,
      decoding sees the same thing whether or not `s2` follows. */
  ghost predicate NoStraddle(o: Oracle, s1: seq<bv8>, s2: seq<bv8>)
    requires o.Valid()
    decreases |s1|
  {
    s1 == [] ||
    (var d := o.iterate(s1);
     Agree(d, o.iterate(s1 + s2)) && NoStraddle(o, s1[Advance(d)..], s2))
  }

  /** Cutting a concatenation inside its first part. */
  lemma CutAppend<T>(a: seq<T>, b: seq<T>, n: nat)
    requires n <= |a|
    ensures (a + b)[..n] == a[..n] && (a + b)[n..] == a[n..] + b
  {
  }

  lemma {:induction false} TokensAppend(o: Oracle, s1: seq<bv8>, s2: seq<bv8>)
    requires o.Valid() && NoStraddle(o, s1, s2)
    ensures Tokens(o, s1 + s2) == Tokens(o, s1) + Tokens(o, s2)
    decreases |s1|
  {
    if s1 == [] {
      assert s1 + s2 == s2;
    } else {
      var n := Advance(o.iterate(s1));
      FrontOfAppend(o, s1, s2);
      CutAppend(s1, s2, n);
      assert Tokens(o, s1 + s2) == Front(o, s1) + Tokens(o, s1[n..] + s2);
      TokensAppend(o, s1[n..], s2);
      assert Front(o, s1) + (Tokens(o, s1[n..]) + Tokens(o, s2)) == Front(o, s1) + Tokens(o, s1[n..]) + Tokens(o, s2);
    }
  }

  /** When the two decodings agree, the scan takes the same token and moves as far with or
      without `s2` behind `s1`. */
  lemma FrontOfAppend(o: Oracle, s1: seq<bv8>, s2: seq<bv8>)
    requires o.Valid() && s1 != [] && Agree(o.iterate(s1), o.iterate(s1 + s2))
    ensures Advance(o.iterate(s1 + s2)) == Advance(o.iterate(s1)) <= |s1|
    ensures Front(o, s1 + s2) == Front(o, s1)
  {
    var d := o.iterate(s1);
    if d.len > 0 {
      CutAppend(s1, s2, d.len);
    }
  }

  lemma {:induction false} ApplyAllAppend(t: Table, st: Session, a: seq<Token>, b: seq<Token>)
    requires Fits(t, st)
    ensures ApplyAll(t, st, a + b) == ApplyAll(t, ApplyAll(t, st, a), b)
    decreases |a|
  {
    if a == [] {
      assert a + b == b;
    } else {
      assert (a + b)[0] == a[0];
      assert (a + b)[1..] == a[1..] + b;
      ApplyAllAppend(t, Apply(t, st, a[0]), a[1..], b);
    }
  }

  /** Feeding two chunks one after the other is feeding their concatenation, as long as no
      codepoint straddles the split: the state between calls is the window and the accumulators,
      nothing else. */
  lemma ConsumeSplit(t: Table, o: Oracle, st: Session, s1: seq<bv8>, s2: seq<bv8>)
    requires Fits(t, st) && o.Valid() && NoStraddle(o, s1, s2)
    ensures Consume(t, o, Consume(t, o, st, s1), s2) == Consume(t, o, st, s1 + s2)
  {
    TokensAppend(o, s1, s2);
    ApplyAllAppend(t, st, Tokens(o, s1), Tokens(o, s2));
  }

  /** sb_init, sb_feed(s1), sb_feed(s2), sb_finish picks the label sb_detect picks on s1 + s2. */
  lemma ClassifyInChunks(t: Table, o: Oracle, s1: seq<bv8>, s2: seq<bv8>)
    requires t.Valid() && o.Valid() && NoStraddle(o, s1, s2)
    ensures Decide(t, Consume(t, o, Consume(t, o, Start(t), s1), s2)) == Classify(t, o, s1 + s2)
  {
    ConsumeSplit(t, o, Start(t), s1, s2);
  }

  // ----- sb_finish -----

  /** A second sb_finish pushes its pad byte at position 0, below the fill threshold: no score
      changes and the same label comes back. */
  lemma FlushIdempotent(t: Table, st: Session)
    requires Fits(t, st)
    ensures Flush(t, Flush(t, st)) == Flush(t, st)
    ensures Decide(t, Flush(t, st)) == Decide(t, st)
  {
  }

  /** When every score is the same, the first index wins. */
  lemma {:induction false} ArgMaxOfTies(p: seq<real>)
    requires |p| > 0 && forall j :: 0 <= j < |p| ==> p[j] == p[0]
    ensures ArgMax(p) == 0
    decreases |p|
  {
    if |p| > 1 {
      ArgMaxOfTies(p[..|p| - 1]);
    }
  }

  /** Empty input: buf_pos goes from 1 to 2 in sb_finish, no quadgram is scored, all scores stay
      zero and the strict comparison keeps label 0. */
  lemma EmptyInputPicksFirstLabel(t: Table, o: Oracle)
    requires t.Valid() && o.Valid()
    ensures Classify(t, o, []) == 0
  {
    var p := Flush(t, Consume(t, o, Start(t), [])).probs;
    assert p == Start(t).probs;
    ArgMaxOfTies(p);
  }

  // ----- the window -----

  /** The bytes letters contribute, in order. */
  function LetterBytes(toks: seq<Token>): seq<bv8>
    decreases |toks|
  {
    if toks == [] then []
    else (match toks[0] case Letter(b) => b case Boundary => []) + LetterBytes(toks[1..])
  }

  /** Without a boundary, the history only grows by the letters' bytes. */
  lemma {:induction false} HistWithoutBoundary(t: Table, st: Session, toks: seq<Token>)
    requires Fits(t, st) && Boundary !in toks
    ensures ApplyAll(t, st, toks).hist == st.hist + LetterBytes(toks)
    decreases |toks|
  {
    if toks != [] {
      assert toks[0] != Boundary;
      assert toks[1..] <= toks[1..];
      assert forall k :: 0 <= k < |toks[1..]| ==> toks[1..][k] == toks[k + 1];
      HistWithoutBoundary(t, Apply(t, st, toks[0]), toks[1..]);
    }
  }

  /** After the last boundary, the history is the pad byte followed by every letter byte pushed
      since: the window hashed at each update is the last four of these bytes. */
  lemma HistAfterBoundary(t: Table, st: Session, toks: seq<Token>, g: nat)
    requires Fits(t, st) && g < |toks| && toks[g] == Boundary && Boundary !in toks[g + 1..]
    ensures ApplyAll(t, st, toks).hist == [Pad] + LetterBytes(toks[g + 1..])
  {
    ApplyAllSplit(t, st, toks, g + 1);
    EndsWithBoundary(t, st, toks[..g + 1]);
    HistWithoutBoundary(t, ApplyAll(t, st, toks[..g + 1]), toks[g + 1..]);
  }

  /** The tokens cut at `n`: the second part applied to the state the first part leaves. */
  lemma ApplyAllSplit(t: Table, st: Session, toks: seq<Token>, n: nat)
    requires Fits(t, st) && n <= |toks|
    ensures ApplyAll(t, st, toks) == ApplyAll(t, ApplyAll(t, st, toks[..n]), toks[n..])
  {
    assert toks == toks[..n] + toks[n..];
    ApplyAllAppend(t, st, toks[..n], toks[n..]);
  }

  /** A boundary last leaves the window holding the pad byte alone. */
  lemma EndsWithBoundary(t: Table, st: Session, toks: seq<Token>)
    requires Fits(t, st) && |toks| >= 1 && toks[|toks| - 1] == Boundary
    ensures ApplyAll(t, st, toks).hist == [Pad]
  {
    ApplyAllSplit(t, st, toks, |toks| - 1);
    assert toks[|toks| - 1..] == [Boundary];
  }

  /** The window is never emptied by feeding: buf_pos stays at least 1 from sb_init until
      sb_finish. */
  lemma {:induction false} HistStaysNonEmpty(t: Table, st: Session, toks: seq<Token>)
    requires Fits(t, st) && |st.hist| >= 1
    ensures |ApplyAll(t, st, toks).hist| >= 1
    decreases |toks|
  {
    if toks != [] {
      HistStaysNonEmpty(t, Apply(t, st, toks[0]), toks[1..]);
    }
  }

  /** The same on whole chunks, and the end of a chunk changes nothing. */
  lemma ConsumeKeepsWindow(t: Table, o: Oracle, st: Session, text: seq<bv8>)
    requires Fits(t, st) && o.Valid()
    ensures Consume(t, o, st, []) == st
    ensures |st.hist| >= 1 ==> |Consume(t, o, st, text).hist| >= 1
  {
    if |st.hist| >= 1 {
      HistStaysNonEmpty(t, st, Tokens(o, text));
    }
  }

  // ----- monotone scores -----

  predicate Grows(p: seq<real>, q: seq<real>)
  {
    |p| == |q| && forall i :: 0 <= i < |p| ==> p[i] <= q[i]
  }

  lemma PutByteGrows(t: Table, st: Session, b: bv8)
    requires Fits(t, st) && t.NonNegative()
    ensures Grows(st.probs, PutByte(t, st, b).probs)
  {
  }

  lemma {:induction false} PutAllGrows(t: Table, st: Session, bytes: seq<bv8>)
    requires Fits(t, st) && t.NonNegative()
    ensures Grows(st.probs, PutAll(t, st, bytes).probs)
    decreases |bytes|
  {
    if bytes != [] {
      PutByteGrows(t, st, bytes[0]);
      PutAllGrows(t, PutByte(t, st, bytes[0]), bytes[1..]);
    }
  }

  lemma {:induction false} ApplyAllGrows(t: Table, st: Session, toks: seq<Token>)
    requires Fits(t, st) && t.NonNegative()
    ensures Grows(st.probs, ApplyAll(t, st, toks).probs)
    decreases |toks|
  {
    if toks != [] {
      match toks[0] {
        case Letter(bytes) => PutAllGrows(t, st, bytes);
        case Boundary => PutByteGrows(t, st, Pad);
      }
      ApplyAllGrows(t, Apply(t, st, toks[0]), toks[1..]);
    }
  }

  /** With a non-negative table no accumulator ever decreases, through any amount of input and
      the final flush. */
  lemma ScoresNeverDecrease(t: Table, o: Oracle, st: Session, text: seq<bv8>)
    requires Fits(t, st) && t.NonNegative() && o.Valid()
    ensures Grows(st.probs, Consume(t, o, st, text).probs)
    ensures Grows(st.probs, Flush(t, Consume(t, o, st, text)).probs)
  {
    ApplyAllGrows(t, st, Tokens(o, text));
    PutByteGrows(t, Consume(t, o, st, text), Pad);
  }
}
