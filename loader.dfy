/** sb_load: the model file's layout, its validation and the error it reports. */
module Loader {
  import opened Wrappers
  import opened Errors
  import opened Hash
  import opened Scan
  import opened Engine

  /** The limits sb_load enforces (SB_MAX_LABELS, SB_MAX_LABELS_LEN, SB_MAX_FEATURES). */
  const MaxLabels: nat := 600
  const MaxLabelsLen: nat := 2048
  const MaxFeatures: nat := 300000

  const Newline: bv8 := 10

  /** The largest uint64_t, the type counts are read into. */
  const U64Max: nat := 0xFFFF_FFFF_FFFF_FFFF

  /** DBL_MAX, the largest finite double, written out exactly. */
  const DblMax: real := 179769313486231570814527423731704356798070567525844996598917476803157260780028538760589558632766878171540458953514382464234321326889464182768467546703537516986049910576551282076245490090389328944075868508455133942304583236903222948165808559332123348274797826204144723168738177180919299881250404026184124858368.0

  /** The three section sizes of the second line: `> num_labels labels_len num_features`. */
  datatype Sizes = Sizes(numLabels: nat, labelsLen: nat, numFeatures: nat)

  /** A model file as sb_load sees it. The two fscanf calls on the first two lines are taken by
      their outcome: `isOpen` is fopen succeeding, `magicAtEof` is the magic-line scan returning
      EOF, `header` holds the sizes when the second scan converted all three. `body` is every byte after the sizes line, and
      `ioError` is what ferror reports when the loader gives up. */
  datatype Source = Source(isOpen: bool, magicAtEof: bool, header: Option<Sizes>, body: seq<bv8>, ioError: bool)

  /** What a successful load holds: the label names in file order and the feature counts. */
  datatype Parsed = Parsed(labels: seq<seq<bv8>>, counts: seq<nat>)

  datatype Outcome = Success(parsed: Parsed) | Failure(status: Status)

  predicate SizesInRange(sz: Sizes)
  {
    1 <= sz.numLabels <= MaxLabels && 1 <= sz.labelsLen <= MaxLabelsLen && 1 <= sz.numFeatures <= MaxFeatures
  }

  /** The `bad_model` exit: SB_EIO when the stream's error flag is set, SB_EMODEL otherwise. */
  function BadModel(src: Source): Status
  {
    if src.ioError then EIo else EModel
  }

  // ----- the label section: fgets and strlen -----

  /** How many bytes fgets takes at `at` when it may take at most `limit`: through the first
      newline, or up to the limit or the end of the input. */
  function LineLen(body: seq<bv8>, at: nat, limit: nat): (n: nat)
    requires at <= |body|
    ensures n <= limit && at + n <= |body|
    ensures n < limit && at + n < |body| ==> n >= 1 && body[at + n - 1] == Newline
    decreases limit
  {
    if limit == 0 || at == |body| then 0
    else if body[at] == Newline then 1
    else 1 + LineLen(body, at + 1, limit - 1)
  }

  /** fgets into a buffer of `size` bytes: at most size - 1 bytes, stopping after a newline; no
      line (NULL) when the input is exhausted before a byte is read. With a one-byte buffer
      nothing is read and the empty string comes back. */
  function Fgets(body: seq<bv8>, at: nat, size: nat): (r: Option<seq<bv8>>)
    requires at <= |body| && size >= 1
    ensures r.Some? ==> |r.value| < size && at + |r.value| <= |body| && r.value == body[at..at + |r.value|]
  {
    if size == 1 then Some([])
    else if at == |body| then None
    else Some(body[at..at + LineLen(body, at, size - 1)])
  }

  /** fgets stops at the first newline: none comes before the last byte it takes. */
  lemma {:induction false} LineLenStopsAtNewline(body: seq<bv8>, at: nat, limit: nat)
    requires at <= |body|
    ensures forall k :: at <= k < at + LineLen(body, at, limit) - 1 ==> body[k] != Newline
    decreases limit
  {
    if limit == 0 || at == |body| || body[at] == Newline {
    } else {
      LineLenStopsAtNewline(body, at + 1, limit - 1);
    }
  }

  /** The line fgets returns has its only newline, if any, at the end. */
  lemma FgetsStopsAtNewline(body: seq<bv8>, at: nat, size: nat)
    requires at <= |body| && size >= 1 && Fgets(body, at, size).Some?
    ensures forall k :: 0 <= k < |Fgets(body, at, size).value| - 1 ==> Fgets(body, at, size).value[k] != Newline
  {
    if size > 1 {
      LineLenStopsAtNewline(body, at, size - 1);
    }
  }

  /** A label line sb_load accepts, read at `at` with `size` bytes of room: what fgets returns
      is at least two bytes, ends in the newline and holds no NUL byte. This is the strlen check
      of the source restated (LabelLineIsStrlenCheck). */
  function LabelLine(body: seq<bv8>, at: nat, size: nat): (r: Option<seq<bv8>>)
    requires at <= |body| && size >= 1
    ensures r.Some? ==> 2 <= |r.value| < size && at + |r.value| <= |body|
  {
    if size < 3 || at == |body| then None
    else
      var n := LineLen(body, at, size - 1);
      if n >= 2 && body[at + n - 1] == Newline && 0 !in body[at..at + n] then Some(body[at..at + n]) else None
  }

  /** The test sb_load applies to the line fgets returned: strlen, which stops at the first NUL
      byte, measures at least two bytes, and the last of them is the newline. */
  predicate StrlenAccepts(line: seq<bv8>)
  {
    var len := |CString(line)|;
    len >= 2 && line[len - 1] == Newline
  }

  /** LabelLine accepts exactly the lines the fgets-then-strlen test accepts, `read` being what
      fgets returns, and strlen then measures the whole line. */
  lemma LabelLineIsStrlenCheck(body: seq<bv8>, at: nat, size: nat, read: Option<seq<bv8>>)
    requires at <= |body| && size >= 1 && read == Fgets(body, at, size)
    ensures LabelLine(body, at, size).Some? <==> read.Some? && StrlenAccepts(read.value)
    ensures LabelLine(body, at, size).Some? ==> LabelLine(body, at, size) == read && |CString(read.value)| == |read.value|
  {
    if read.Some? {
      var line := read.value;
      FgetsStopsAtNewline(body, at, size);
      if 0 in line {
        var r := CString(line);
        assert r == line[..|r|];
        assert |r| < |line|;
      } else {
        CStringWhole(line);
      }
    }
  }

  /** The label loop of sb_load, `left` labels still to read: each line is read into the room
      left in the label area (`cap + 1 - pos` bytes, cap being labels_len + num_labels), and the
      label is the line without its newline. */
  function ReadLabels(body: seq<bv8>, at: nat, left: nat, cap: nat, pos: nat, acc: seq<seq<bv8>>)
    : (r: Option<(seq<seq<bv8>>, nat, nat)>)
    requires at <= |body| && pos <= cap
    ensures r.Some? ==> r.value.1 <= |body| && r.value.2 <= cap && |r.value.0| == |acc| + left
    decreases left
  {
    if left == 0 then Some((acc, at, pos))
    else match LabelLine(body, at, cap + 1 - pos)
      case None => None
      case Some(line) => ReadLabels(body, at + |line|, left - 1, cap, pos + |line|, acc + [line[..|line| - 1]])
  }

  /** One turn of the label loop on an accepted line, the loop's new state passed in. */
  lemma ReadLabelsStep(body: seq<bv8>, at: nat, left: nat, cap: nat, pos: nat, acc: seq<seq<bv8>>, line: seq<bv8>,
                       at': nat, left': nat, pos': nat, acc': seq<seq<bv8>>)
    requires at <= |body| && pos <= cap && left >= 1
    requires LabelLine(body, at, cap + 1 - pos) == Some(line)
    requires at' == at + |line| && left' == left - 1 && pos' == pos + |line| && acc' == acc + [line[..|line| - 1]]
    ensures at' <= |body| && pos' <= cap
    ensures ReadLabels(body, at, left, cap, pos, acc) == ReadLabels(body, at', left', cap, pos', acc')
  {
  }

  /** One turn of the label loop on a line fgets returned and strlen accepted, which strlen
      measures whole; the loop's new state passed in. */
  lemma ReadLabelsAccepted(body: seq<bv8>, at: nat, left: nat, cap: nat, pos: nat, acc: seq<seq<bv8>>,
                           read: Option<seq<bv8>>, len: nat, at': nat, left': nat, pos': nat, acc': seq<seq<bv8>>)
    requires at <= |body| && pos <= cap && left >= 1
    requires read == Fgets(body, at, cap + 1 - pos) && read.Some?
    requires len == |CString(read.value)| && len >= 2 && read.value[len - 1] == Newline
    requires at' == at + |read.value| && left' == left - 1 && pos' == pos + len && acc' == acc + [read.value[..len - 1]]
    ensures len == |read.value| && at' <= |body| && pos' <= cap
    ensures ReadLabels(body, at, left, cap, pos, acc) == ReadLabels(body, at', left', cap, pos', acc')
  {
    LabelLineIsStrlenCheck(body, at, cap + 1 - pos, read);
    ReadLabelsStep(body, at, left, cap, pos, acc, read.value, at', left', pos', acc');
  }

  /** A refused line ends the label loop in failure. */
  lemma ReadLabelsRefused(body: seq<bv8>, at: nat, left: nat, cap: nat, pos: nat, acc: seq<seq<bv8>>, read: Option<seq<bv8>>)
    requires at <= |body| && pos <= cap && left >= 1 && read == Fgets(body, at, cap + 1 - pos)
    requires read.None? || !StrlenAccepts(read.value)
    ensures ReadLabels(body, at, left, cap, pos, acc).None?
  {
    LabelLineIsStrlenCheck(body, at, cap + 1 - pos, read);
  }

  // ----- the feature section: fscanf(fp, "%" SCNu64 "\n", &n) -----

  /** isspace in the C locale: blank, tab, newline, vertical tab, form feed, carriage return. */
  predicate IsSpace(b: bv8)
  {
    b == 32 || b == 9 || b == 10 || b == 11 || b == 12 || b == 13
  }

  /** isdigit: the characters '0' to '9'. */
  predicate IsDigit(b: bv8)
  {
    b == 48 || b == 49 || b == 50 || b == 51 || b == 52 || b == 53 || b == 54 || b == 55 || b == 56 || b == 57
  }

  function SkipSpace(body: seq<bv8>, at: nat): (r: nat)
    requires at <= |body|
    ensures at <= r <= |body|
    decreases |body| - at
  {
    if at < |body| && IsSpace(body[at]) then SkipSpace(body, at + 1) else at
  }

  function SkipDigits(body: seq<bv8>, at: nat): (r: nat)
    requires at <= |body|
    ensures at <= r <= |body|
    decreases |body| - at
  {
    if at < |body| && IsDigit(body[at]) then SkipDigits(body, at + 1) else at
  }

  /** The characters '0' to '9'. */
  const Digits: seq<bv8> := [48, 49, 50, 51, 52, 53, 54, 55, 56, 57]

  /** The value of one digit character. */
  function DigitValue(b: bv8): nat
  {
    if b == 49 then 1 else if b == 50 then 2 else if b == 51 then 3 else if b == 52 then 4
    else if b == 53 then 5 else if b == 54 then 6 else if b == 55 then 7 else if b == 56 then 8
    else if b == 57 then 9 else 0
  }

  /** The number the digits s[a..b] spell, accumulated left to right as strtoull does. */
  function ValueAt(s: seq<bv8>, a: nat, b: nat): nat
    requires a <= b <= |s|
    decreases b - a
  {
    if a == b then 0 else ValueAt(s, a, b - 1) * 10 + DigitValue(s[b - 1])
  }

  /** Equal runs of digits spell equal numbers. */
  lemma {:induction false} ValueAtSlices(s: seq<bv8>, a: nat, t: seq<bv8>, c: nat, len: nat)
    requires a + len <= |s| && c + len <= |t| && s[a..a + len] == t[c..c + len]
    ensures ValueAt(s, a, a + len) == ValueAt(t, c, c + len)
    decreases len
  {
    if len > 0 {
      assert s[a..a + len - 1] == s[a..a + len][..len - 1];
      assert t[c..c + len - 1] == t[c..c + len][..len - 1];
      assert s[a + len - 1] == s[a..a + len][len - 1];
      assert t[c + len - 1] == t[c..c + len][len - 1];
      ValueAtSlices(s, a, t, c, len - 1);
    }
  }

  /** A value past the range of uint64_t reads as UINT64_MAX, as strtoull saturates. */
  function Saturate(v: nat): (r: nat)
    ensures r <= U64Max
  {
    if v > U64Max then U64Max else v
  }

  /** One count: white space, one or more digits, white space. The result is the value and the
      position after the trailing white space; no count when no digit is found. */
  function ScanCount(body: seq<bv8>, at: nat): (r: Option<(nat, nat)>)
    requires at <= |body|
    ensures r.Some? ==> at < r.value.1 <= |body| && r.value.0 <= U64Max
  {
    var a := SkipSpace(body, at);
    var b := SkipDigits(body, a);
    if a == b then None else Some((Saturate(ValueAt(body, a, b)), SkipSpace(body, b)))
  }

  /** The argument `n + 1` handed to log, computed in uint64_t arithmetic. */
  function LogArgument(n: nat): nat
  {
    (n + 1) % (U64Max + 1)
  }

  /** The guard as written, `n > DBL_MAX - 1`, with n converted to double: a count is accepted
      when it does not exceed DBL_MAX - 1. */
  predicate AcceptsCountAsWritten(n: nat)
  {
    !((n as real) > DblMax - 1.0)
  }

  /** The guard as intended: a count is accepted when `n + 1` does not overflow. */
  predicate AcceptsCount(n: nat)
  {
    n < U64Max
  }

  /** Which of the two guards the feature loop applies: `AsWritten` is sb_load as the code has
      it, `Corrected` is the guard it evidently means. */
  datatype Guard = AsWritten | Corrected

  predicate Admits(g: Guard, n: nat)
  {
    if g == AsWritten then AcceptsCountAsWritten(n) else AcceptsCount(n)
  }

  /** The feature loop of sb_load, `left` counts still to read. */
  function ReadCounts(body: seq<bv8>, at: nat, left: nat, acc: seq<nat>, g: Guard): (r: Option<(seq<nat>, nat)>)
    requires at <= |body|
    ensures r.Some? ==> r.value.1 <= |body| && |r.value.0| == |acc| + left
    decreases left
  {
    if left == 0 then Some((acc, at))
    else match ScanCount(body, at)
      case None => None
      case Some((n, next)) =>
        if !Admits(g, n) then None else ReadCounts(body, next, left - 1, acc + [n], g)
  }

  /** One turn of the feature loop on an accepted count, the loop's new state passed in. */
  lemma ReadCountsStep(body: seq<bv8>, at: nat, left: nat, acc: seq<nat>, n: nat, at': nat, left': nat, acc': seq<nat>, g: Guard)
    requires at <= |body| && left >= 1
    requires ScanCount(body, at) == Some((n, at')) && Admits(g, n)
    requires left' == left - 1 && acc' == acc + [n]
    ensures at' <= |body|
    ensures ReadCounts(body, at, left, acc, g) == ReadCounts(body, at', left', acc', g)
  {
  }

  // ----- the whole load -----

  /** The label section: `num_labels` lines that fill the label area exactly. The result is the
      labels and the position after the last label line. */
  function LabelSection(body: seq<bv8>, sz: Sizes): (r: Option<(seq<seq<bv8>>, nat)>)
    ensures r.Some? ==> r.value.1 <= |body| && |r.value.0| == sz.numLabels
  {
    var cap := sz.labelsLen + sz.numLabels;
    match ReadLabels(body, 0, sz.numLabels, cap, 0, [])
    case None => None
    case Some((labels, at, pos)) => if pos == cap then Some((labels, at)) else None
  }

  /** Both sections, then the end of the input. */
  function Sections(body: seq<bv8>, sz: Sizes, g: Guard): (r: Option<Parsed>)
    ensures r.Some? ==> |r.value.labels| == sz.numLabels && |r.value.counts| == sz.numFeatures
  {
    match LabelSection(body, sz)
    case None => None
    case Some((labels, at)) =>
      match ReadCounts(body, at, sz.numFeatures, [], g)
      case None => None
      case Some((counts, end)) => if end == |body| then Some(Parsed(labels, counts)) else None
  }

  /** sb_load's checks in their order, with `allocOk` the outcome of its malloc. */
  function Parse(src: Source, allocOk: bool, g: Guard): (r: Outcome)
    ensures r.Success? ==> src.header.Some? && |r.parsed.labels| == src.header.value.numLabels
    ensures r.Success? ==> |r.parsed.counts| == src.header.value.numFeatures
  {
    if !src.isOpen then Failure(EOpen)
    else if src.magicAtEof then Failure(EMagic)
    else if src.header.None? || !SizesInRange(src.header.value) then Failure(BadModel(src))
    else if !allocOk then Failure(ENoMem)
    else match Sections(src.body, src.header.value, g)
      case None => Failure(BadModel(src))
      case Some(p) => Success(p)
  }

  /** The feature table built from the counts: entry i is log(counts[i] + 1), with `ln` standing
      for the C library's natural logarithm. */
  function Weights(counts: seq<nat>, ln: nat -> real): (w: seq<real>)
    ensures |w| == |counts|
  {
    seq(|counts|, i requires 0 <= i < |counts| => ln(LogArgument(counts[i])))
  }

  /** The label loop of sb_load: the labels in file order and the position after the last label
      line, when the section is well formed. */
  method ReadLabelLines(body: seq<bv8>, sz: Sizes) returns (ok: bool, labels: seq<seq<bv8>>, at: nat)
    ensures ok <==> LabelSection(body, sz).Some?
    ensures ok ==> (labels, at) == LabelSection(body, sz).value
  {
    var cap := sz.labelsLen + sz.numLabels;
    var pos: nat, i: nat := 0, 0;
    ghost var left := sz.numLabels;
    labels, at := [], 0;
    while i < sz.numLabels
      invariant i <= sz.numLabels && at <= |body| && pos <= cap && left == sz.numLabels - i
      invariant ReadLabels(body, at, left, cap, pos, labels) == ReadLabels(body, 0, sz.numLabels, cap, 0, [])
    {
      var line := Fgets(body, at, cap + 1 - pos);
      if line.None? {
        ReadLabelsRefused(body, at, left, cap, pos, labels, line);
        return false, labels, at;
      }
      var len := |CString(line.value)|;
      if len < 2 || line.value[len - 1] != Newline {
        ReadLabelsRefused(body, at, left, cap, pos, labels, line);
        return false, labels, at;
      }
      ghost var at0, left0, pos0, labels0 := at, left, pos, labels;
      // The newline gives way to the string's NUL; the label is what precedes it.
      labels := labels + [line.value[..len - 1]];
      at, pos, i := at + |line.value|, pos + len, i + 1;
      left := left - 1;
      ReadLabelsAccepted(body, at0, left0, cap, pos0, labels0, line, len, at, left, pos, labels);
    }
    assert ReadLabels(body, at, left, cap, pos, labels) == Some((labels, at, pos));
    ok := pos == cap;
  }

  /** The feature loop of sb_load: each count read becomes the table entry log(n + 1). */
  method ReadFeatureLines(s: Sabir, body: seq<bv8>, start: nat, numFeatures: nat, ln: nat -> real, g: Guard)
    returns (ok: bool, at: nat)
    requires s.model == [] && start <= |body|
    modifies s`model
    ensures ok <==> ReadCounts(body, start, numFeatures, [], g).Some?
    ensures ok ==>
      at == ReadCounts(body, start, numFeatures, [], g).value.1 &&
      s.model == Weights(ReadCounts(body, start, numFeatures, [], g).value.0, ln)
  {
    ghost var counts: seq<nat> := [];
    ghost var left := numFeatures;
    var i: nat := 0;
    at := start;
    while i < numFeatures
      invariant i <= numFeatures && at <= |body| && left == numFeatures - i
      invariant ReadCounts(body, at, left, counts, g) == ReadCounts(body, start, numFeatures, [], g)
      invariant s.model == Weights(counts, ln)
    {
      var c := ScanCount(body, at);
      if c.None? || !Admits(g, c.value.0) {
        return false, at;
      }
      ghost var at0, left0, counts0 := at, left, counts;
      var n := c.value.0;
      s.model := s.model + [ln(LogArgument(n))];
      at, i := c.value.1, i + 1;
      left, counts := left - 1, counts + [n];
      ReadCountsStep(body, at0, left0, counts0, n, at, left, counts, g);
    }
    ok := true;
  }

  /** sb_load. `err` is the status code; `sb` stands for `*sbp`, NULL unless the load succeeds. */
  method Load(src: Source, allocOk: bool, ln: nat -> real, g: Guard) returns (err: int, sb: Sabir?)
    ensures Parse(src, allocOk, g).Failure? ==> sb == null && err == Parse(src, allocOk, g).status.Code()
    ensures Parse(src, allocOk, g).Success? ==>
      err == Ok.Code() && sb != null && fresh(sb) && fresh(sb.probs) && fresh(sb.buf) && sb.Valid() &&
      sb.labels == Parse(src, allocOk, g).parsed.labels &&
      sb.model == Weights(Parse(src, allocOk, g).parsed.counts, ln) &&
      sb.State() == Start(sb.T())
  {
    if !src.isOpen {
      return EOpen.Code(), null;
    }
    if src.magicAtEof {
      return EMagic.Code(), null;
    }
    if src.header.None? {
      return BadModel(src).Code(), null;
    }
    var sz := src.header.value;
    if sz.numLabels == 0 || sz.numLabels > MaxLabels {
      return BadModel(src).Code(), null;
    }
    if sz.labelsLen == 0 || sz.labelsLen > MaxLabelsLen {
      return BadModel(src).Code(), null;
    }
    if sz.numFeatures == 0 || sz.numFeatures > MaxFeatures {
      return BadModel(src).Code(), null;
    }
    if !allocOk {
      return ENoMem.Code(), null;
    }
    var s: Sabir := new Sabir(sz.numLabels);
    var ok, labels, at := ReadLabelLines(src.body, sz);
    if !ok {
      return BadModel(src).Code(), null;
    }
    s.labels := labels;
    ok, at := ReadFeatureLines(s, src.body, at, sz.numFeatures, ln, g);
    // Nothing may follow the last count.
    if !ok || at != |src.body| {
      return BadModel(src).Code(), null;
    }
    return Ok.Code(), s;
  }

  // ----- what a load promises -----

  /** The bytes a list of labels occupies in the file: each name followed by a newline. */
  function Lines(ls: seq<seq<bv8>>): seq<bv8>
  {
    if ls == [] then [] else ls[0] + [Newline] + Lines(ls[1..])
  }

  /** A label as the loader stores it: at least one byte, no newline, no NUL. */
  predicate GoodLabel(l: seq<bv8>)
  {
    |l| >= 1 && Newline !in l && 0 !in l
  }

  /** An accepted line is a good label followed by its newline, taken from the input at `at`. */
  lemma AcceptedLabelLine(body: seq<bv8>, at: nat, size: nat)
    requires at <= |body| && size >= 1 && LabelLine(body, at, size).Some?
    ensures var line := LabelLine(body, at, size).value;
      line == body[at..at + |line|] && line == line[..|line| - 1] + [Newline] && GoodLabel(line[..|line| - 1])
  {
    var line := LabelLine(body, at, size).value;
    LabelLineIsStrlenCheck(body, at, size, Fgets(body, at, size));
    FgetsStopsAtNewline(body, at, size);
    var l := line[..|line| - 1];
    forall k | 0 <= k < |l|
      ensures l[k] != Newline && l[k] != 0
    {
      assert l[k] == line[k];
    }
    assert line == l + [Newline];
  }

  /** What the label loop reads is a run of label lines, and `pos` advances as the input does. */
  lemma {:induction false} ReadLabelsSound(body: seq<bv8>, at: nat, left: nat, cap: nat, pos: nat, acc: seq<seq<bv8>>)
    requires at <= |body| && pos <= cap && ReadLabels(body, at, left, cap, pos, acc).Some?
    ensures var r := ReadLabels(body, at, left, cap, pos, acc).value;
      |acc| <= |r.0| && r.0[..|acc|] == acc && (forall k :: |acc| <= k < |r.0| ==> GoodLabel(r.0[k])) &&
      at <= r.1 && r.1 - at == r.2 - pos && body[at..r.1] == Lines(r.0[|acc|..])
    decreases left
  {
    var r := ReadLabels(body, at, left, cap, pos, acc).value;
    if left == 0 {
      assert r.0[|acc|..] == [];
    } else {
      var line := LabelLine(body, at, cap + 1 - pos).value;
      AcceptedLabelLine(body, at, cap + 1 - pos);
      var l := line[..|line| - 1];
      var at', left', pos', acc' := at + |line|, left - 1, pos + |line|, acc + [l];
      ReadLabelsStep(body, at, left, cap, pos, acc, line, at', left', pos', acc');
      assert ReadLabels(body, at', left', cap, pos', acc').value == r;
      ReadLabelsSound(body, at', left', cap, pos', acc');
      ReadLabelsSoundCons(body, at, pos, acc, line, l, r.0, r.1, r.2);
    }
  }

  /** One turn of the label loop in front of a sound rest of the read. */
  lemma ReadLabelsSoundCons(body: seq<bv8>, at: nat, pos: nat, acc: seq<seq<bv8>>, line: seq<bv8>, l: seq<bv8>,
                            xs: seq<seq<bv8>>, end: nat, pos'': nat)
    requires at + |line| <= |body| && line == body[at..at + |line|] && line == l + [Newline] && GoodLabel(l)
    requires |acc| + 1 <= |xs| && xs[..|acc| + 1] == acc + [l] && (forall k :: |acc| + 1 <= k < |xs| ==> GoodLabel(xs[k]))
    requires at + |line| <= end <= |body| && end - (at + |line|) == pos'' - (pos + |line|)
    requires body[at + |line|..end] == Lines(xs[|acc| + 1..])
    ensures |acc| <= |xs| && xs[..|acc|] == acc && (forall k :: |acc| <= k < |xs| ==> GoodLabel(xs[k]))
    ensures at <= end && end - at == pos'' - pos && body[at..end] == Lines(xs[|acc|..])
  {
    LabelsCons(xs, acc, l);
    LinesCons(xs[|acc|..], l, xs[|acc| + 1..]);
    SplitSlice(body, at, at + |line|, end);
  }

  /** One more label at the front of what the rest of the loop read. */
  lemma LabelsCons(xs: seq<seq<bv8>>, acc: seq<seq<bv8>>, l: seq<bv8>)
    requires |acc| + 1 <= |xs| && xs[..|acc| + 1] == acc + [l] && GoodLabel(l)
    requires forall k :: |acc| + 1 <= k < |xs| ==> GoodLabel(xs[k])
    ensures xs[..|acc|] == acc && xs[|acc|] == l && xs[|acc|..][1..] == xs[|acc| + 1..]
    ensures forall k :: |acc| <= k < |xs| ==> GoodLabel(xs[k])
  {
    assert xs[..|acc|] == xs[..|acc| + 1][..|acc|];
  }

  lemma LinesCons(ls: seq<seq<bv8>>, l: seq<bv8>, rest: seq<seq<bv8>>)
    requires |ls| >= 1 && ls[0] == l && ls[1..] == rest
    ensures Lines(ls) == l + [Newline] + Lines(rest)
  {
  }

  lemma SplitSlice(s: seq<bv8>, i: nat, j: nat, k: nat)
    requires i <= j <= k <= |s|
    ensures s[i..k] == s[i..j] + s[j..k]
  {
  }

  /** What the feature loop reads are counts the guard accepts. */
  lemma {:induction false} ReadCountsSound(body: seq<bv8>, at: nat, left: nat, acc: seq<nat>, g: Guard)
    requires at <= |body| && ReadCounts(body, at, left, acc, g).Some?
    ensures var cs := ReadCounts(body, at, left, acc, g).value.0;
      |acc| <= |cs| && cs[..|acc|] == acc && forall n :: n in cs[|acc|..] ==> n <= U64Max && Admits(g, n)
    decreases left
  {
    var cs := ReadCounts(body, at, left, acc, g).value.0;
    if left > 0 {
      var (n, next) := ScanCount(body, at).value;
      ReadCountsSound(body, next, left - 1, acc + [n], g);
      assert cs[..|acc| + 1] == acc + [n];
      assert cs[..|acc|] == cs[..|acc| + 1][..|acc|];
      assert cs[|acc|..] == [n] + cs[|acc| + 1..];
    }
  }

  /** A successful load passed every check: the sizes are in range, there are num_labels labels
      of one or more bytes with no newline or NUL, their lines fill exactly labels_len +
      num_labels bytes at the start of the body, and there are num_features counts, each below
      UINT64_MAX. Labels are then hashed whole. */
  lemma LoadedModelIsWellFormed(src: Source, allocOk: bool, g: Guard)
    requires Parse(src, allocOk, g).Success?
    ensures src.isOpen && !src.magicAtEof && allocOk && src.header.Some? && SizesInRange(src.header.value)
    ensures var sz := src.header.value; var p := Parse(src, allocOk, g).parsed;
      |p.labels| == sz.numLabels && |p.counts| == sz.numFeatures &&
      (forall l :: l in p.labels ==> GoodLabel(l) && CString(l) == l) &&
      |Lines(p.labels)| == sz.labelsLen + sz.numLabels && Lines(p.labels) <= src.body &&
      (forall n :: n in p.counts ==> n <= U64Max && Admits(g, n)) &&
      ReadCounts(src.body, |Lines(p.labels)|, sz.numFeatures, [], g) == Some((p.counts, |src.body|))
  {
    var sz := src.header.value;
    var p := Parse(src, allocOk, g).parsed;
    var cap := sz.labelsLen + sz.numLabels;
    assert Sections(src.body, sz, g) == Some(p);
    var (labels, at) := LabelSection(src.body, sz).value;
    var r := ReadLabels(src.body, 0, sz.numLabels, cap, 0, []).value;
    assert r == (labels, at, cap);
    assert ReadCounts(src.body, at, sz.numFeatures, [], g).Some?;
    assert labels == p.labels;
    assert ReadCounts(src.body, at, sz.numFeatures, [], g).value.0 == p.counts;
    ReadLabelsSound(src.body, 0, sz.numLabels, cap, 0, []);
    assert labels[0..] == labels;
    assert src.body[..at] == Lines(labels);
    ReadCountsSound(src.body, at, sz.numFeatures, [], g);
    assert p.counts[0..] == p.counts;
    forall l | l in p.labels
      ensures GoodLabel(l) && CString(l) == l
    {
      var k :| 0 <= k < |labels| && labels[k] == l;
      CStringWhole(l);
    }
  }

  /** Which error a failed load reports: SB_EOPEN and SB_EMAGIC for the first two checks,
      SB_ENOMEM only for a failed allocation after valid sizes, and otherwise SB_EIO exactly when
      the stream's error flag is set. SB_OK is never a failure. */
  lemma FailureCauses(src: Source, allocOk: bool, g: Guard)
    ensures Parse(src, allocOk, g) == Failure(EOpen) <==> !src.isOpen
    ensures Parse(src, allocOk, g) == Failure(EMagic) <==> src.isOpen && src.magicAtEof
    ensures Parse(src, allocOk, g) == Failure(ENoMem) <==>
      src.isOpen && !src.magicAtEof && src.header.Some? && SizesInRange(src.header.value) && !allocOk
    ensures Parse(src, allocOk, g).Failure? ==> Parse(src, allocOk, g).status != Ok
    ensures Parse(src, allocOk, g).Failure? && src.isOpen && !src.magicAtEof && Parse(src, allocOk, g).status != ENoMem ==>
      Parse(src, allocOk, g).status == BadModel(src)
  {
  }

  // ----- writing a model file and reading it back -----

  /** The decimal digits of n, most significant first, as a count line spells it. */
  function Decimal(n: nat): (ds: seq<bv8>)
    ensures |ds| >= 1 && (forall k :: 0 <= k < |ds| ==> IsDigit(ds[k])) && ValueAt(ds, 0, |ds|) == n
    decreases n
  {
    DigitChar(n % 10);
    if n < 10 then
      [Digits[n]]
    else
      var high := Decimal(n / 10);
      var ds := high + [Digits[n % 10]];
      assert ds[0..|high|] == high[0..|high|];
      ValueAtSlices(ds, 0, high, 0, |high|);
      ds
  }

  /** Each digit character stands for its value. */
  lemma DigitChar(d: nat)
    requires d < 10
    ensures IsDigit(Digits[d]) && DigitValue(Digits[d]) == d
  {
    if d == 0 {} else if d == 1 {} else if d == 2 {} else if d == 3 {} else if d == 4 {}
    else if d == 5 {} else if d == 6 {} else if d == 7 {} else if d == 8 {} else {}
  }

  /** The feature section as written: one count per line. */
  function CountLines(cs: seq<nat>): seq<bv8>
  {
    if cs == [] then [] else Decimal(cs[0]) + [Newline] + CountLines(cs[1..])
  }

  /** labels_len: the bytes of all names, newlines not counted. */
  function LabelsLen(ls: seq<seq<bv8>>): nat
  {
    if ls == [] then 0 else |ls[0]| + LabelsLen(ls[1..])
  }

  lemma {:induction false} LinesLength(ls: seq<seq<bv8>>)
    ensures |Lines(ls)| == LabelsLen(ls) + |ls|
  {
    if ls != [] {
      LinesLength(ls[1..]);
    }
  }

  /** The model file holding `labels` and `counts`: the magic line, the sizes line, the labels,
      the counts. */
  function Render(labels: seq<seq<bv8>>, counts: seq<nat>): Source
  {
    Source(true, false, Some(Sizes(|labels|, LabelsLen(labels), |counts|)), Lines(labels) + CountLines(counts), false)
  }

  /** fgets on a line of m bytes other than the newline, then the newline, takes all m + 1. */
  lemma {:induction false} LineLenOfLine(body: seq<bv8>, at: nat, m: nat, limit: nat)
    requires at + m < |body| && body[at + m] == Newline && limit >= m + 1
    requires forall k :: at <= k < at + m ==> body[k] != Newline
    ensures LineLen(body, at, limit) == m + 1
    decreases m
  {
    if m > 0 {
      LineLenOfLine(body, at + 1, m - 1, limit - 1);
    }
  }

  /** A label line as written is accepted whole. */
  lemma LabelLineOfLabel(body: seq<bv8>, at: nat, size: nat, l: seq<bv8>)
    requires GoodLabel(l) && at + |l| + 1 <= |body| && body[at..at + |l| + 1] == l + [Newline]
    requires size >= |l| + 2
    ensures LabelLine(body, at, size) == Some(l + [Newline])
  {
    var line := l + [Newline];
    forall k | at <= k < at + |l|
      ensures body[k] != Newline
    {
      assert body[k] == body[at..at + |l| + 1][k - at] == l[k - at];
    }
    assert body[at + |l|] == body[at..at + |l| + 1][|l|] == Newline;
    LineLenOfLine(body, at, |l|, size - 1);
    assert 0 !in line by {
      forall k | 0 <= k < |line|
        ensures line[k] != 0
      {
        if k < |l| {
          assert line[k] == l[k];
        }
      }
    }
  }

  /** Label lines as written begin with the first label's line, followed by the others'. */
  lemma FirstLabelLine(body: seq<bv8>, at: nat, ls: seq<seq<bv8>>, end: nat)
    requires |ls| >= 1 && end == at + |Lines(ls)| && end <= |body| && body[at..end] == Lines(ls)
    ensures |Lines(ls)| == |ls[0]| + 1 + |Lines(ls[1..])|
    ensures body[at..at + |ls[0]| + 1] == ls[0] + [Newline]
    ensures body[at + |ls[0]| + 1..end] == Lines(ls[1..])
  {
    var line := ls[0] + [Newline];
    LinesCons(ls, ls[0], ls[1..]);
    SplitSlice(body, at, at + |line|, end);
    assert body[at..at + |line|] == Lines(ls)[..|line|] == line;
    assert body[at + |line|..end] == Lines(ls)[|line|..];
  }

  /** From `at` on, the body holds the `left` labels `ls`, each line accepted in the room left in
      the label area, the last one ending at `end` and filling the area. */
  ghost predicate LabelsAt(body: seq<bv8>, at: nat, ls: seq<seq<bv8>>, left: nat, cap: nat, pos: nat, end: nat)
    requires at <= |body| && pos <= cap
    decreases |ls|
  {
    left == |ls| &&
    if ls == [] then pos == cap && at == end
    else
      LabelLine(body, at, cap + 1 - pos) == Some(ls[0] + [Newline]) &&
      LabelsAt(body, at + |ls[0]| + 1, ls[1..], left - 1, cap, pos + |ls[0]| + 1, end)
  }

  /** Label lines as written, filling the label area, are accepted one by one. */
  lemma {:induction false} LabelLinesAt(body: seq<bv8>, at: nat, ls: seq<seq<bv8>>, left: nat, cap: nat, pos: nat, end: nat)
    requires left == |ls| && end == at + |Lines(ls)| && cap == pos + |Lines(ls)|
    requires end <= |body| && body[at..end] == Lines(ls)
    requires forall k :: 0 <= k < |ls| ==> GoodLabel(ls[k])
    ensures LabelsAt(body, at, ls, left, cap, pos, end)
    decreases left
  {
    if left == 0 {
      assert Lines(ls) == [];
    } else {
      FirstLabelAt(body, at, ls, cap, pos, end);
      LabelLinesAt(body, at + |ls[0]| + 1, ls[1..], left - 1, cap, pos + |ls[0]| + 1, end);
      LabelsAtCons(body, at, ls, left, cap, pos, end);
    }
  }

  /** An accepted first line in front of the remaining label lines. */
  lemma LabelsAtCons(body: seq<bv8>, at: nat, ls: seq<seq<bv8>>, left: nat, cap: nat, pos: nat, end: nat)
    requires left == |ls| >= 1 && at + |ls[0]| + 1 <= |body| && pos + |ls[0]| + 1 <= cap
    requires LabelLine(body, at, cap + 1 - pos) == Some(ls[0] + [Newline])
    requires LabelsAt(body, at + |ls[0]| + 1, ls[1..], left - 1, cap, pos + |ls[0]| + 1, end)
    ensures LabelsAt(body, at, ls, left, cap, pos, end)
  {
  }

  /** The first of the label lines as written is accepted, and the lines of the others follow it. */
  lemma FirstLabelAt(body: seq<bv8>, at: nat, ls: seq<seq<bv8>>, cap: nat, pos: nat, end: nat)
    requires |ls| >= 1 && end == at + |Lines(ls)| && cap == pos + |Lines(ls)|
    requires end <= |body| && body[at..end] == Lines(ls)
    requires forall k :: 0 <= k < |ls| ==> GoodLabel(ls[k])
    ensures LabelLine(body, at, cap + 1 - pos) == Some(ls[0] + [Newline])
    ensures end == at + |ls[0]| + 1 + |Lines(ls[1..])| && cap == pos + |ls[0]| + 1 + |Lines(ls[1..])|
    ensures body[at + |ls[0]| + 1..end] == Lines(ls[1..])
    ensures forall k :: 0 <= k < |ls[1..]| ==> GoodLabel(ls[1..][k])
  {
    FirstLabelLine(body, at, ls, end);
    LabelLineOfLabel(body, at, cap + 1 - pos, ls[0]);
  }

  /** The label loop reads back every label, ending at `end` with the label area full. */
  lemma {:induction false} ReadLabelsComplete(body: seq<bv8>, at: nat, ls: seq<seq<bv8>>, left: nat, cap: nat, pos: nat,
                                              acc: seq<seq<bv8>>, end: nat)
    requires at <= |body| && pos <= cap && LabelsAt(body, at, ls, left, cap, pos, end)
    ensures ReadLabels(body, at, left, cap, pos, acc) == Some((acc + ls, end, cap))
    decreases left
  {
    if left == 0 {
      assert acc + ls == acc;
    } else {
      var at', pos', acc' := ReadFirstLabel(body, at, ls, left, cap, pos, acc, end);
      ReadLabelsComplete(body, at', ls[1..], left - 1, cap, pos', acc', end);
    }
  }

  /** One turn of the label loop over label lines as written reads the first label and leaves the
      lines of the others. */
  lemma ReadFirstLabel(body: seq<bv8>, at: nat, ls: seq<seq<bv8>>, left: nat, cap: nat, pos: nat, acc: seq<seq<bv8>>,
                       end: nat)
    returns (at': nat, pos': nat, acc': seq<seq<bv8>>)
    requires at <= |body| && pos <= cap && LabelsAt(body, at, ls, left, cap, pos, end) && left >= 1
    ensures at' <= |body| && pos' <= cap && |ls| == left && acc' + ls[1..] == acc + ls
    ensures LabelsAt(body, at', ls[1..], left - 1, cap, pos', end)
    ensures ReadLabels(body, at, left, cap, pos, acc) == ReadLabels(body, at', left - 1, cap, pos', acc')
  {
    var line := ls[0] + [Newline];
    at', pos', acc' := at + |ls[0]| + 1, pos + |ls[0]| + 1, acc + [ls[0]];
    assert line[..|line| - 1] == ls[0];
    ReadLabelsStep(body, at, left, cap, pos, acc, line, at', left - 1, pos', acc');
    AppendFirst(acc, ls);
  }

  lemma {:induction false} SkipDigitsRun(body: seq<bv8>, at: nat, m: nat)
    requires at + m <= |body| && forall k :: at <= k < at + m ==> IsDigit(body[k])
    requires at + m == |body| || !IsDigit(body[at + m])
    ensures SkipDigits(body, at) == at + m
    decreases m
  {
    if m > 0 {
      SkipDigitsRun(body, at + 1, m - 1);
    }
  }

  /** White space is skipped up to the first byte that is not white space. */
  lemma SkipSpaceAt(body: seq<bv8>, at: nat)
    requires at == |body| || (at < |body| && !IsSpace(body[at]))
    ensures SkipSpace(body, at) == at
  {
  }

  /** The elements of a slice are the elements of the sequence at the shifted positions. */
  lemma SliceElements<T>(s: seq<T>, at: nat, xs: seq<T>)
    requires at + |xs| <= |s| && s[at..at + |xs|] == xs
    ensures forall k :: 0 <= k < |xs| ==> s[at + k] == xs[k]
  {
    forall k | 0 <= k < |xs|
      ensures s[at + k] == xs[k]
    {
      assert s[at + k] == s[at..at + |xs|][k];
    }
  }

  /** Where the scan of a count line stops: no white space before the digits, the digits run
      up to the newline, and the newline is the only white space after them. */
  lemma LineShape(body: seq<bv8>, at: nat, ds: seq<bv8>, next: nat)
    requires |ds| >= 1 && (forall k :: 0 <= k < |ds| ==> IsDigit(ds[k]))
    requires next == at + |ds| + 1 && next <= |body| && body[at..next] == ds + [Newline]
    requires next == |body| || !IsSpace(body[next])
    ensures SkipSpace(body, at) == at && SkipDigits(body, at) == at + |ds|
    ensures body[at..at + |ds|] == ds && SkipSpace(body, at + |ds|) == next
  {
    var line := ds + [Newline];
    var end := at + |ds|;
    SliceElements(body, at, line);
    assert body[end] == line[|ds|] == Newline;
    assert body[at] == line[0] == ds[0];
    SkipSpaceAt(body, at);
    forall k | at <= k < end
      ensures IsDigit(body[k])
    {
      assert body[at + (k - at)] == line[k - at] == ds[k - at];
    }
    SkipDigitsRun(body, at, |ds|);
    assert body[at..end] == body[at..end + 1][..|ds|] == line[..|ds|] == ds;
    SkipSpaceAt(body, end + 1);
  }

  /** A run of digits ended by a newline and then by the end of the input or a byte that is not
      white space reads back as the value of the digits, the newline consumed. */
  lemma ScanCountOfLine(body: seq<bv8>, at: nat, ds: seq<bv8>, next: nat)
    requires |ds| >= 1 && (forall k :: 0 <= k < |ds| ==> IsDigit(ds[k])) && ValueAt(ds, 0, |ds|) <= U64Max
    requires next == at + |ds| + 1 && next <= |body| && body[at..next] == ds + [Newline]
    requires next == |body| || !IsSpace(body[next])
    ensures ScanCount(body, at) == Some((ValueAt(ds, 0, |ds|), next))
  {
    LineShape(body, at, ds, next);
    LineValue(body, at, ds);
    ScanCountAt(body, at, at + |ds|, next);
  }

  /** A scan that finds no white space first, digits up to `b` spelling a number in range, and
      white space up to `e` reads that number and stops at `e`. */
  lemma ScanCountAt(body: seq<bv8>, at: nat, b: nat, e: nat)
    requires at < b <= |body| && SkipSpace(body, at) == at && SkipDigits(body, at) == b
    requires ValueAt(body, at, b) <= U64Max && SkipSpace(body, b) == e
    ensures ScanCount(body, at) == Some((ValueAt(body, at, b), e))
  {
  }

  /** The digits of a line spell the number its digits spell. */
  lemma LineValue(body: seq<bv8>, at: nat, ds: seq<bv8>)
    requires at + |ds| <= |body| && body[at..at + |ds|] == ds
    ensures ValueAt(body, at, at + |ds|) == ValueAt(ds, 0, |ds|)
  {
    assert ds[0..|ds|] == ds;
    ValueAtSlices(body, at, ds, 0, |ds|);
  }

  /** Count lines as written begin with the first count's line, followed by the others', and
      what follows that line is the end of the input or a digit. */
  lemma FirstCountLine(body: seq<bv8>, at: nat, cs: seq<nat>, next: nat)
    requires |cs| >= 1 && at + |CountLines(cs)| == |body| && body[at..] == CountLines(cs)
    requires next == at + |Decimal(cs[0])| + 1
    ensures next <= |body| && body[at..next] == Decimal(cs[0]) + [Newline]
    ensures body[next..] == CountLines(cs[1..])
    ensures next == |body| || !IsSpace(body[next])
  {
    var ds, rest := Decimal(cs[0]), cs[1..];
    assert CountLines(cs) == ds + [Newline] + CountLines(rest);
    assert body[at..next] == CountLines(cs)[..|ds| + 1] == ds + [Newline];
    assert body[next..] == CountLines(cs)[|ds| + 1..] == CountLines(rest);
    if rest != [] {
      assert body[next] == CountLines(rest)[0] == Decimal(rest[0])[0];
    }
  }

  /** From `at` on, the body holds the `left` counts `cs`, each read by one scan and accepted by
      the guard, and nothing after the last one. */
  ghost predicate CountsAt(body: seq<bv8>, at: nat, cs: seq<nat>, left: nat, g: Guard)
    requires at <= |body|
    decreases |cs|
  {
    left == |cs| &&
    if cs == [] then at == |body|
    else match ScanCount(body, at)
      case None => false
      case Some((n, next)) => n == cs[0] && Admits(g, n) && CountsAt(body, next, cs[1..], left - 1, g)
  }

  /** Count lines as written, ending the input, scan one count each. */
  lemma {:induction false} CountLinesAt(body: seq<bv8>, at: nat, cs: seq<nat>, left: nat, g: Guard)
    requires left == |cs| && at + |CountLines(cs)| == |body| && body[at..] == CountLines(cs)
    requires forall k :: 0 <= k < |cs| ==> cs[k] <= U64Max && Admits(g, cs[k])
    ensures CountsAt(body, at, cs, left, g)
    decreases left
  {
    if left > 0 {
      var next := at + |Decimal(cs[0])| + 1;
      FirstCountLine(body, at, cs, next);
      ScanCountOfLine(body, at, Decimal(cs[0]), next);
      CountLinesAt(body, next, cs[1..], left - 1, g);
      CountsAtCons(body, at, cs, left, next, g);
    }
  }

  /** A count scanned and accepted in front of the remaining counts. */
  lemma CountsAtCons(body: seq<bv8>, at: nat, cs: seq<nat>, left: nat, next: nat, g: Guard)
    requires at <= |body| && left == |cs| >= 1
    requires ScanCount(body, at) == Some((cs[0], next)) && Admits(g, cs[0])
    requires CountsAt(body, next, cs[1..], left - 1, g)
    ensures CountsAt(body, at, cs, left, g)
  {
  }

  /** The feature loop reads back every count, to the end of the input. */
  lemma {:induction false} ReadCountsComplete(body: seq<bv8>, at: nat, cs: seq<nat>, left: nat, acc: seq<nat>, g: Guard)
    requires at <= |body| && CountsAt(body, at, cs, left, g)
    ensures ReadCounts(body, at, left, acc, g) == Some((acc + cs, |body|))
    decreases left
  {
    if left == 0 {
      assert acc + cs == acc;
    } else {
      var next := ScanCount(body, at).value.1;
      ReadCountsStep(body, at, left, acc, cs[0], next, left - 1, acc + [cs[0]], g);
      ReadCountsComplete(body, next, cs[1..], left - 1, acc + [cs[0]], g);
      AppendFirst(acc, cs);
    }
  }

  /** A body that starts with the label lines as written has those labels as its label section,
      when the sizes line gives their number and their total length. */
  lemma LabelSectionOfLines(body: seq<bv8>, sz: Sizes, labels: seq<seq<bv8>>)
    requires sz.numLabels == |labels| && sz.labelsLen + sz.numLabels == |Lines(labels)|
    requires |Lines(labels)| <= |body| && body[0..|Lines(labels)|] == Lines(labels)
    requires forall k :: 0 <= k < |labels| ==> GoodLabel(labels[k])
    ensures LabelSection(body, sz) == Some((labels, |Lines(labels)|))
  {
    var cap, end := sz.labelsLen + sz.numLabels, |Lines(labels)|;
    LabelLinesAt(body, 0, labels, sz.numLabels, cap, 0, end);
    ReadLabelsComplete(body, 0, labels, sz.numLabels, cap, 0, [], end);
    assert [] + labels == labels;
    LabelSectionOf(body, sz, labels, end);
  }

  /** A label loop that fills the label area is the label section. */
  lemma LabelSectionOf(body: seq<bv8>, sz: Sizes, labels: seq<seq<bv8>>, end: nat)
    requires ReadLabels(body, 0, sz.numLabels, sz.labelsLen + sz.numLabels, 0, []) ==
      Some((labels, end, sz.labelsLen + sz.numLabels))
    ensures LabelSection(body, sz) == Some((labels, end))
  {
  }

  /** Count lines as written, ending the input, are the feature section. */
  lemma CountSectionOfLines(body: seq<bv8>, at: nat, cs: seq<nat>, g: Guard)
    requires at + |CountLines(cs)| == |body| && body[at..] == CountLines(cs)
    requires forall k :: 0 <= k < |cs| ==> cs[k] <= U64Max && Admits(g, cs[k])
    ensures ReadCounts(body, at, |cs|, [], g) == Some((cs, |body|))
  {
    CountLinesAt(body, at, cs, |cs|, g);
    ReadCountsComplete(body, at, cs, |cs|, [], g);
    assert [] + cs == cs;
  }

  /** Both sections read, the second to the end of the input: the sections are what they read. */
  lemma SectionsOf(body: seq<bv8>, sz: Sizes, labels: seq<seq<bv8>>, at: nat, counts: seq<nat>, g: Guard)
    requires LabelSection(body, sz) == Some((labels, at)) && at <= |body|
    requires ReadCounts(body, at, sz.numFeatures, [], g) == Some((counts, |body|))
    ensures Sections(body, sz, g) == Some(Parsed(labels, counts))
  {
  }

  /** An open file, not empty, with sizes in range and both sections read, loads what they
      read. */
  lemma ParseOf(src: Source, sz: Sizes, p: Parsed, g: Guard)
    requires src.isOpen && !src.magicAtEof && src.header == Some(sz) && SizesInRange(sz)
    requires Sections(src.body, sz, g) == Some(p)
    ensures Parse(src, true, g) == Success(p)
  {
  }

  /** Moving the first element of `xs` onto the end of `acc` keeps the concatenation. */
  lemma AppendFirst<T>(acc: seq<T>, xs: seq<T>)
    requires |xs| >= 1
    ensures acc + [xs[0]] + xs[1..] == acc + xs
  {
    assert xs == [xs[0]] + xs[1..];
  }

  /** The two parts of a concatenation are its slices. */
  lemma AppendSlices<T>(a: seq<T>, b: seq<T>)
    ensures (a + b)[0..|a|] == a && (a + b)[|a|..] == b
  {
  }

  /** Writing labels and counts out as a model file and loading it gives them back, provided they
      are within the limits, every label is one or more bytes with no newline or NUL, and every
      count passes the guard. */
  lemma RenderedModelLoads(labels: seq<seq<bv8>>, counts: seq<nat>, g: Guard)
    requires 1 <= |labels| <= MaxLabels && LabelsLen(labels) <= MaxLabelsLen && 1 <= |counts| <= MaxFeatures
    requires forall k :: 0 <= k < |labels| ==> GoodLabel(labels[k])
    requires forall k :: 0 <= k < |counts| ==> counts[k] <= U64Max && Admits(g, counts[k])
    requires labels[0] != [] && !IsSpace(labels[0][0])
    ensures Parse(Render(labels, counts), true, g) == Success(Parsed(labels, counts))
  {
    var text, rest := Lines(labels), CountLines(counts);
    var sz := Sizes(|labels|, LabelsLen(labels), |counts|);
    LinesLength(labels);
    assert LabelsLen(labels) >= |labels[0]| >= 1;
    assert SizesInRange(sz);
    AppendSlices(text, rest);
    LabelSectionOfLines(text + rest, sz, labels);
    CountSectionOfLines(text + rest, |text|, counts, g);
    SectionsOf(text + rest, sz, labels, |text|, counts, g);
    ParseOf(Render(labels, counts), sz, Parsed(labels, counts), g);
  }

  // ----- the count guard -----

  /** The line a count is written as reads back as that count. */
  lemma CountLineReadsBack(n: nat)
    requires n <= U64Max
    ensures ScanCount(Decimal(n) + [Newline], 0) == Some((n, |Decimal(n)| + 1))
  {
    DigitsLineReadsBack(Decimal(n));
  }

  /** A line of digits alone in the input reads back as the number they spell. */
  lemma DigitsLineReadsBack(ds: seq<bv8>)
    requires |ds| >= 1 && (forall k :: 0 <= k < |ds| ==> IsDigit(ds[k])) && ValueAt(ds, 0, |ds|) <= U64Max
    ensures ScanCount(ds + [Newline], 0) == Some((ValueAt(ds, 0, |ds|), |ds| + 1))
  {
    var body := ds + [Newline];
    assert body[0..|ds| + 1] == body;
    ScanCountOfLine(body, 0, ds, |ds| + 1);
  }

  /** As written, the guard rejects no 64-bit count: every uint64_t value is far below DBL_MAX. */
  lemma CountGuardAsWrittenAdmitsAll(n: nat)
    requires n <= U64Max
    ensures AcceptsCountAsWritten(n)
  {
    assert (n as real) <= U64Max as real < DblMax - 1.0;
  }

  /** The guard as written admits UINT64_MAX, whose line in a model file reads back as that value
      and for which `n + 1` wraps to 0, so the table entry becomes log(0). */
  lemma CountGuardAsWrittenAdmitsWrap()
    ensures ScanCount(Decimal(U64Max) + [Newline], 0) == Some((U64Max, |Decimal(U64Max)| + 1))
    ensures AcceptsCountAsWritten(U64Max) && LogArgument(U64Max) == 0
  {
    CountLineReadsBack(U64Max);
    CountGuardAsWrittenAdmitsAll(U64Max);
    LogArgumentWraps(U64Max);
  }

  /** `n + 1` in uint64_t arithmetic is 0 for n = UINT64_MAX. */
  lemma LogArgumentWraps(n: nat)
    requires n == U64Max
    ensures LogArgument(n) == 0
  {
    assert n + 1 == U64Max + 1;
  }

  /** End to end: a model file whose one count is UINT64_MAX loads as the code is written, its
      table entry being log(0), and is refused with SB_EMODEL under the corrected guard. */
  lemma WrappedCountLoadsAsWritten(labels: seq<seq<bv8>>, n: nat, ln: nat -> real)
    requires 1 <= |labels| <= MaxLabels && LabelsLen(labels) <= MaxLabelsLen
    requires forall k :: 0 <= k < |labels| ==> GoodLabel(labels[k])
    requires labels[0] != [] && !IsSpace(labels[0][0]) && n == U64Max
    ensures Parse(Render(labels, [n]), true, AsWritten) == Success(Parsed(labels, [n]))
    ensures Weights([n], ln) == [ln(0)]
    ensures Parse(Render(labels, [n]), true, Corrected) == Failure(EModel)
  {
    AsWrittenGuardLoadsOneCount(labels, n);
    WrappedCountWeighsZero(n, ln);
    CorrectedGuardRefusesWrap(labels, n);
  }

  /** The guard as written lets any single 64-bit count through the feature loop, UINT64_MAX
      included. */
  lemma AsWrittenGuardLoadsOneCount(labels: seq<seq<bv8>>, n: nat)
    requires 1 <= |labels| <= MaxLabels && LabelsLen(labels) <= MaxLabelsLen
    requires forall k :: 0 <= k < |labels| ==> GoodLabel(labels[k])
    requires labels[0] != [] && !IsSpace(labels[0][0]) && n <= U64Max
    ensures Parse(Render(labels, [n]), true, AsWritten) == Success(Parsed(labels, [n]))
  {
    CountGuardAsWrittenAdmitsAll(n);
    OneCountAdmitted(AsWritten, n);
    RenderedModelLoads(labels, [n], AsWritten);
  }

  /** A one-count table meets the per-count requirement of RenderedModelLoads. */
  lemma OneCountAdmitted(g: Guard, n: nat)
    requires n <= U64Max && Admits(g, n)
    ensures forall k :: 0 <= k < |[n]| ==> [n][k] <= U64Max && Admits(g, [n][k])
  {
  }

  /** The table entry of a count of UINT64_MAX is log of the wrapped-around `n + 1`, that is
      log(0). */
  lemma WrappedCountWeighsZero(n: nat, ln: nat -> real)
    requires n == U64Max
    ensures Weights([n], ln) == [ln(0)]
  {
    LogArgumentWraps(n);
    assert Weights([n], ln)[0] == ln(0);
  }

  /** The corrected guard stops the feature loop at a count of UINT64_MAX. */
  lemma CorrectedGuardRefusesWrap(labels: seq<seq<bv8>>, n: nat)
    requires 1 <= |labels| <= MaxLabels && LabelsLen(labels) <= MaxLabelsLen
    requires forall k :: 0 <= k < |labels| ==> GoodLabel(labels[k])
    requires n == U64Max
    ensures Parse(Render(labels, [n]), true, Corrected) == Failure(EModel)
  {
    var text, rest := Lines(labels), CountLines([n]);
    var body := text + rest;
    var sz := Sizes(|labels|, LabelsLen(labels), 1);
    LinesLength(labels);
    assert LabelsLen(labels) >= |labels[0]| >= 1;
    AppendSlices(text, rest);
    LabelSectionOfLines(body, sz, labels);
    var next := |text| + |Decimal(n)| + 1;
    FirstCountLine(body, |text|, [n], next);
    ScanCountOfLine(body, |text|, Decimal(n), next);
    assert ScanCount(body, |text|) == Some((n, next));
    CountRefused(body, |text|, 1, [], n, next);
    SectionsRefused(body, sz, labels, |text|, Corrected);
    ParseRefused(Render(labels, [n]), sz, Corrected);
  }

  /** A count the corrected guard refuses ends the feature loop in failure. */
  lemma CountRefused(body: seq<bv8>, at: nat, left: nat, acc: seq<nat>, n: nat, next: nat)
    requires at <= |body| && left >= 1 && ScanCount(body, at) == Some((n, next)) && !AcceptsCount(n)
    ensures ReadCounts(body, at, left, acc, Corrected).None?
  {
  }

  /** A feature loop that fails after a label section that loads fails the sections. */
  lemma SectionsRefused(body: seq<bv8>, sz: Sizes, labels: seq<seq<bv8>>, at: nat, g: Guard)
    requires LabelSection(body, sz) == Some((labels, at)) && at <= |body|
    requires ReadCounts(body, at, sz.numFeatures, [], g).None?
    ensures Sections(body, sz, g).None?
  {
  }

  /** Sections that fail after valid sizes and allocation give the bad_model exit. */
  lemma ParseRefused(src: Source, sz: Sizes, g: Guard)
    requires src.isOpen && !src.magicAtEof && src.header == Some(sz) && SizesInRange(sz)
    requires Sections(src.body, sz, g).None?
    ensures Parse(src, true, g) == Failure(BadModel(src))
  {
  }

  /** With the corrected guard, log is applied to n + 1 >= 1, computed without wrapping. */
  lemma AcceptedCountsHavePositiveLogArgument(n: nat)
    requires AcceptsCount(n)
    ensures LogArgument(n) == n + 1 && LogArgument(n) >= 1
  {
  }

  /** Given a logarithm that is non-negative from 1 on, every table a load produces is
      non-negative, so (ScoresNeverDecrease) no accumulator ever decreases. */
  lemma LoadedTableIsNonNegative(src: Source, allocOk: bool, ln: nat -> real)
    requires Parse(src, allocOk, Corrected).Success?
    requires forall x: nat :: x >= 1 ==> ln(x) >= 0.0
    ensures var p := Parse(src, allocOk, Corrected).parsed;
      Table(p.labels, Weights(p.counts, ln)).Valid() && Table(p.labels, Weights(p.counts, ln)).NonNegative()
  {
    var p := Parse(src, allocOk, Corrected).parsed;
    LoadedModelIsWellFormed(src, allocOk, Corrected);
    forall k | 0 <= k < |p.counts|
      ensures Weights(p.counts, ln)[k] >= 0.0
    {
      assert p.counts[k] in p.counts;
      AcceptedCountsHavePositiveLogArgument(p.counts[k]);
    }
  }
}
