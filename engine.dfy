/** struct sabir and the functions of the library that update it in place. */
module Engine {
  import opened Wrappers
  import opened Hash
  import opened Unicode
  import opened Scan

  /** Two positions less than four apart use different ring slots. */
  lemma SlotsDiffer(k: nat, p: nat)
    requires k < p < k + NgramSize
    ensures k % NgramSize != p % NgramSize
  {
  }

  class Sabir {
    /** The label names, in file order (num_labels of them). */
    var labels: seq<seq<bv8>>
    /** The feature table (num_features entries). */
    var model: seq<real>
    /** One accumulator per label. */
    const probs: array<real>
    /** The quadgram ring buffer. */
    const buf: array<bv8>
    /** The write cursor of the ring buffer: the next byte goes to slot buf_pos mod 4. */
    var bufPos: nat
    /** Every byte written to the ring buffer since the last sb_init, run boundary or sb_finish. */
    ghost var hist: seq<bv8>

    /** The shape a successful sb_load leaves. */
    ghost predicate Loaded()
      reads this`labels, this`model
    {
      |labels| >= 1 && |model| >= 1 && probs.Length == |labels| && buf.Length == NgramSize
    }

    /** buf_pos counts the bytes of `hist`, and the ring holds the last four of them, the byte at
        position k in slot k mod 4. */
    ghost predicate Cursor()
      reads this`bufPos, this`hist, buf
    {
      buf.Length == NgramSize && buf as object != probs && |hist| == bufPos &&
      forall k :: 0 <= k < bufPos && bufPos <= k + NgramSize ==> buf[k % NgramSize] == hist[k]
    }

    ghost predicate Valid()
      reads this`labels, this`model, this`bufPos, this`hist, buf
    {
      Loaded() && Cursor()
    }

    /** The parts a session only reads. */
    function T(): Table
      reads this`labels, this`model
    {
      Table(labels, model)
    }

    /** The parts a session changes, as a value. */
    ghost function State(): Session
      reads this`hist, probs
    {
      Session(hist, probs[..])
    }

    /** Read from slot buf_pos mod 4 on, the ring gives the last four bytes written, oldest
        first: the quadgram sb_hash_feature hashes. */
    lemma RingIsLastFour()
      requires Cursor() && bufPos >= NgramSize
      ensures Ring(buf[..], bufPos) == hist[bufPos - NgramSize..]
    {
      forall i | 0 <= i < NgramSize
        ensures Ring(buf[..], bufPos)[i] == hist[bufPos - NgramSize..][i]
      {
        var k := bufPos - NgramSize + i;
        assert (bufPos + i) % NgramSize == k % NgramSize;
      }
    }

    /** The allocation of sb_load for `numLabels` labels, followed by its call to sb_init; the
        labels and the table are read into it afterwards. */
    constructor (numLabels: nat)
      ensures labels == [] && model == []
      ensures fresh(probs) && fresh(buf) && probs.Length == numLabels
      ensures Cursor() && bufPos == 1 && hist == [Pad]
      ensures forall i :: 0 <= i < numLabels ==> probs[i] == 0.0
    {
      labels := [];
      model := [];
      probs := new real[numLabels];
      buf := new bv8[NgramSize];
      bufPos := 0;
      hist := [];
      new;
      Init();
    }

    /** sb_init: the window restarts with the pad byte at position 0, every accumulator is zero;
        the other ring slots, the labels and the table are left alone. */
    method Init()
      requires buf.Length == NgramSize && buf as object != probs
      modifies this`bufPos, this`hist, buf, probs
      ensures Cursor() && bufPos == 1 && hist == [Pad] && buf[0] == Pad
      ensures buf[1..] == old(buf[1..])
      ensures forall i :: 0 <= i < probs.Length ==> probs[i] == 0.0
      ensures Loaded() ==> State() == Start(T())
    {
      buf[0] := Pad;
      bufPos := 1;
      hist := [Pad];
      var i := 0;
      while i < probs.Length
        invariant 0 <= i <= probs.Length
        invariant bufPos == 1 && hist == [Pad] && buf[0] == Pad && buf[1..] == old(buf[1..])
        invariant forall k :: 0 <= k < i ==> probs[k] == 0.0
      {
        probs[i] := 0.0;
        i := i + 1;
      }
    }

    /** sb_update_probs: every label's accumulator gains the table entry its slot selects for the
        quadgram in the ring; nothing else changes. */
    method UpdateProbs()
      requires Valid() && bufPos >= NgramSize
      modifies probs
      ensures probs[..] == AddGram(T(), old(probs[..]), hist[bufPos - NgramSize..])
      ensures forall i :: 0 <= i < |labels| ==>
        probs[i] == old(probs[i]) + model[Slot(T(), hist[bufPos - NgramSize..], i)]
    {
      var h1 := HashFeature(buf, bufPos);
      RingIsLastFour();
      ghost var gram, t := hist[bufPos - NgramSize..], T();
      var i := 0;
      while i < |labels|
        invariant 0 <= i <= |labels|
        invariant forall k :: 0 <= k < i ==> probs[k] == old(probs[k]) + model[Slot(t, gram, k)]
        invariant forall k :: i <= k < |labels| ==> probs[k] == old(probs[k])
      {
        var h2 := HashLang(h1, labels[i]);
        var prob := model[(h2 as int) % |model|];
        probs[i] := probs[i] + prob;
        i := i + 1;
      }
    }

    /** `buf[pos++ % 4] = b`: the byte joins the history and takes the ring slot of the oldest
        of the last four. */
    method Write(b: bv8)
      requires Valid()
      modifies this`bufPos, this`hist, buf
      ensures Valid()
      ensures bufPos == old(bufPos) + 1 && hist == old(hist) + [b] && buf[old(bufPos) % NgramSize] == b
    {
      ghost var p0 := bufPos;
      buf[bufPos % NgramSize] := b;
      bufPos := bufPos + 1;
      hist := hist + [b];
      forall k | 0 <= k < bufPos && bufPos <= k + NgramSize
        ensures buf[k % NgramSize] == hist[k]
      {
        if k < p0 {
          SlotsDiffer(k, p0);
        }
      }
    }

    /** `buf[pos++ % 4] = b; if (pos >= 4) sb_update_probs(...)`, the push that sb_process and
        sb_finish share. */
    method Put(b: bv8)
      requires Valid()
      modifies this`bufPos, this`hist, buf, probs
      ensures Valid()
      ensures bufPos == old(bufPos) + 1 && buf[old(bufPos) % NgramSize] == b
      ensures State() == PutByte(T(), old(State()), b)
    {
      Write(b);
      if bufPos >= NgramSize {
        UpdateProbs();
      }
    }

    /** The letter branch of sb_process: each raw byte of the codepoint is pushed. */
    method PushLetter(bytes: seq<bv8>)
      requires Valid()
      modifies this`bufPos, this`hist, buf, probs
      ensures Valid()
      ensures State() == PutAll(T(), old(State()), bytes)
    {
      ghost var before := State();
      var j := 0;
      while j < |bytes|
        invariant 0 <= j <= |bytes|
        invariant Valid()
        invariant PutAll(T(), State(), bytes[j..]) == PutAll(T(), before, bytes)
      {
        assert bytes[j..][1..] == bytes[j + 1..];
        Put(bytes[j]);
        j := j + 1;
      }
    }

    /** The other branch of sb_process: one pad byte, then the window restarts at position 1 after
        the pad byte in slot 0. */
    method PushBoundary()
      requires Valid()
      modifies this`bufPos, this`hist, buf, probs
      ensures Valid() && bufPos == 1 && buf[0] == Pad
      ensures State() == Apply(T(), old(State()), Boundary)
    {
      Put(Pad);
      buf[0] := Pad;
      bufPos := 1;
      hist := [Pad];
    }

    /** One turn of the loop of sb_process, at offset `i` of the chunk: `clen` is how far the scan
        moves, and the rest of the chunk is scanned from the state this turn leaves. */
    method ProcessOne(ghost t: Table, o: Oracle, text: seq<bv8>, i: nat) returns (clen: nat)
      requires Valid() && t == T() && o.Valid() && i < |text|
      modifies this`bufPos, this`hist, buf, probs
      ensures Valid() && 1 <= clen && i + clen <= |text|
      ensures clen == Advance(o.iterate(text[i..]))
      ensures State() == Step(t, o, old(State()), text[i..])
      ensures Consume(t, o, State(), text[i + clen..]) == Consume(t, o, old(State()), text[i..])
    {
      ghost var before := State();
      var d := o.iterate(text[i..]);
      if d.len <= 0 {
        clen := 1;
      } else {
        clen := d.len;
        if IsLetter(o.category(d.cp)) {
          assert text[i..][..clen] == text[i..i + clen];
          PushLetter(text[i..i + clen]);
        } else {
          PushBoundary();
        }
      }
      assert text[i..][clen..] == text[i + clen..];
      ConsumeAdvance(T(), o, before, text[i..], State(), text[i + clen..]);
    }

    /** sb_process: the chunk scanned codepoint by codepoint. A letter pushes its raw bytes, any
        other codepoint pushes one pad byte and restarts the window, a position that does not
        decode is skipped one byte at a time. */
    method Process(o: Oracle, text: seq<bv8>)
      requires Valid() && o.Valid()
      modifies this`bufPos, this`hist, buf, probs
      ensures Valid()
      ensures State() == Consume(T(), o, old(State()), text)
      ensures old(bufPos) >= 1 ==> bufPos >= 1
    {
      ghost var s0, t := State(), T();
      var i := 0;
      while i < |text|
        invariant 0 <= i <= |text|
        invariant Valid() && t == T()
        invariant Consume(t, o, State(), text[i..]) == Consume(t, o, s0, text)
        decreases |text| - i
      {
        var clen := ProcessOne(t, o, text, i);
        ghost var rest := text[i + clen..];
        assert Consume(t, o, State(), rest) == Consume(t, o, s0, text);
        i := i + clen;
        assert text[i..] == rest;
      }
      ConsumeKeepsWindow(t, o, s0, text);
      ConsumeKeepsWindow(t, o, State(), []);
      assert text[i..] == [];
    }

    /** sb_feed: one more chunk of the text. */
    method Feed(o: Oracle, chunk: seq<bv8>)
      requires Valid() && o.Valid()
      modifies this`bufPos, this`hist, buf, probs
      ensures Valid()
      ensures State() == Consume(T(), o, old(State()), chunk)
    {
      Process(o, chunk);
    }

    /** sb_finish: flushes the last quadgram with a pad byte, sets buf_pos to 0, and returns the
        first label (by index) among those with the highest score. */
    method Finish() returns (best: nat, name: seq<bv8>)
      requires Valid()
      modifies this`bufPos, this`hist, buf, probs
      ensures Valid() && bufPos == 0
      ensures State() == Flush(T(), old(State()))
      ensures best == Decide(T(), old(State())) && name == labels[best]
      ensures forall j :: 0 <= j < |labels| ==> probs[j] <= probs[best]
      ensures forall j :: 0 <= j < best ==> probs[j] < probs[best]
    {
      Put(Pad);
      bufPos := 0;
      hist := [];
      best := 0;
      var i := 0;
      while i < |labels|
        invariant 0 <= i <= |labels|
        invariant best < |labels|
        invariant if i == 0 then best == 0 else best == ArgMax(probs[..i])
      {
        assert probs[..i + 1][..i] == probs[..i];
        if probs[i] > probs[best] {
          best := i;
        }
        i := i + 1;
      }
      assert probs[..|labels|] == probs[..];
      name := labels[best];
    }

    /** sb_detect: sb_init, the whole text, sb_finish. */
    method Detect(o: Oracle, text: seq<bv8>) returns (best: nat, name: seq<bv8>)
      requires Valid() && o.Valid()
      modifies this`bufPos, this`hist, buf, probs
      ensures Valid() && bufPos == 0
      ensures State() == Flush(T(), Consume(T(), o, Start(T()), text))
      ensures best == Classify(T(), o, text) && name == labels[best]
    {
      Init();
      Process(o, text);
      best, name := Finish();
    }

    /** sb_langs: the name array as stored, NULL after the last name, and the number of labels
        when a place for it is given. */
    function Langs(wantCount: bool): (r: (seq<Option<seq<bv8>>>, Option<nat>))
      reads this`labels
      ensures |r.0| == |labels| + 1 && r.0[|labels|] == None
      ensures forall i :: 0 <= i < |labels| ==> r.0[i] == Some(labels[i])
      ensures r.1 == if wantCount then Some(|labels|) else None
    {
      var names := labels;
      (seq(|names| + 1, i requires 0 <= i <= |names| => if i < |names| then Some(names[i]) else None),
       if wantCount then Some(|names|) else None)
    }
  }
}
