/**
 * main.c: the brute-force search. The candidate space (numbers below
 * 2^(8L), or the byte offsets of a wordlist) is cut into one chunk per
 * worker plus a remainder chunk; each worker tries its candidates in order,
 * deriving a GSK and decrypting the captured PDU with it, until one
 * decrypts, another worker has succeeded, or its chunk is done.
 *
 * Workers are run one after the other. The shared `solution_found` flag is
 * an input of a worker, `flag(k)` being what it reads before candidate k;
 * in the sequential run it holds whether an earlier worker succeeded.
 */
module Search {
  import opened Octet
  import opened Bytes
  import opened Crypto
  import opened BtBis
  import opened BigInfo
  import opened Candidates

  /** What every worker shares: the crypto primitives, the GSKD, the encrypted PDU and the nonce. */
  datatype Target = Target(tb: Toolbox, ccm: Ccm, gskd: Block, pdu: seq<byte>, nonce: seq<byte>)

  /** The PDU holds its two header bytes; the nonce is 13 bytes. */
  predicate ValidTarget(t: Target)
  {
    |t.pdu| >= 2 && |t.nonce| == 13
  }

  type SearchTarget = t: Target | ValidTarget(t)
    witness Target(Toolbox((s: Block, w: Block) => KdfOut(0, s), (w: Block, id: seq<byte>) => KdfOut(0, w),
                           (k: Block, s: Block, id: seq<byte>) => KdfOut(0, k)),
                   Ccm(c => 0, (c, p, a) => CcmOut(0, [])), Zeros(16), [0, 0], Zeros(13))

  /** `pdu_len` (a long) handed to the uint8_t `plen` parameter. */
  function PduLength(pdu: seq<byte>): byte
  {
    (|pdu| % 256) as byte
  }

  /** What trying one Broadcast Code leads to. */
  datatype Verdict = KdfFailed(ret: int) | Rejected | Accepted

  /** bt_bis_gsk, then bt_bis_pdu_decrypt with nrf 0 under the derived key. */
  function Check(t: SearchTarget, code: Block): Verdict
  {
    var g := DeriveGsk(t.tb, code, t.gskd);
    GskResult(t.tb, code, t.gskd);
    if g.ret != 0 then KdfFailed(g.ret)
    else if PduDecrypt(t.ccm, t.pdu, PduLength(t.pdu), g.wrote.value, t.nonce, 0).ret == 0 then Accepted
    else Rejected
  }

  /*
   * The scans below take the verdicts, the candidates, the buffer load and
   * the reads as function-valued parameters, so that their lemmas hold for
   * any such functions and the loop proofs never unfold the key derivation
   * or the formatting. Checker, NumericCandidates, NumericVerdicts, LineLoad
   * and Fgets are the arguments the workers pass: each only lifts the
   * function it names (Check, NumericCandidate, LineCandidate's buffer,
   * FgetsRead) to a function value.
   */

  /** Check as a function of the Broadcast Code. */
  function Checker(t: SearchTarget): Block -> Verdict
  {
    (code: Block) => Check(t, code)
  }

  /** The numeric candidates for byte length L, by number. */
  function NumericCandidates(bcLength: nat): nat -> Block
  {
    (i: nat) => NumericCandidate(i, bcLength)
  }

  /** What trying numeric candidate i leads to. */
  function NumericVerdicts(t: SearchTarget, bcLength: nat): nat -> Verdict
  {
    (i: nat) => Check(t, NumericCandidate(i, bcLength))
  }

  /** How a worker ends. */
  datatype JobEnd =
    | Found(at: nat, code: Block)   // candidate `at` decrypted the PDU: the flag is set
    | Exhausted                     // the chunk was tried in full
    | Stopped(at: nat)              // the flag was seen set before candidate `at`
    | ProcessExit(at: nat)          // bt_bis_gsk failed on candidate `at`: exit(EXIT_FAILURE)

  /** The flag as a sequential run sees it: whatever it was when the worker started. */
  function Steady(found: bool): nat -> bool
  {
    (k: nat) => found
  }

  /* ------------------------------------------------------ numeric job */

  /** The numeric worker's scan from candidate i to end, candidate k being cand(k) with verdict v(k). */
  function RangeScan(v: nat -> Verdict, cand: nat -> Block, flag: nat -> bool, i: nat, end: nat): JobEnd
    decreases end + 1 - i
  {
    if i > end then Exhausted
    else if i % 1000000 == 0 && flag(i) then Stopped(i)
    else
      match v(i)
      case KdfFailed(_) => ProcessExit(i)
      case Accepted => Found(i, cand(i))
      case Rejected => RangeScan(v, cand, flag, i + 1, end)
  }

  /**
   * What one pass of the numeric loop does with candidate i: stop on the
   * flag at a multiple of 1000000, end the process on a GSK failure, end
   * with the candidate when it decrypts, or go on.
   */
  ghost predicate RangeStepTaken(v: nat -> Verdict, cand: nat -> Block, flag: nat -> bool, i: nat,
                                 done: bool, r: JobEnd)
  {
    if i % 1000000 == 0 && flag(i) then done && r == Stopped(i)
    else
      match v(i)
      case KdfFailed(_) => done && r == ProcessExit(i)
      case Accepted => done && r == Found(i, cand(i))
      case Rejected => !done
  }

  /** A pass that does what RangeStepTaken says takes the scan one candidate further. */
  lemma RangeScanByStep(v: nat -> Verdict, cand: nat -> Block, flag: nat -> bool, i: nat, end: nat,
                        done: bool, r: JobEnd)
    requires i <= end && RangeStepTaken(v, cand, flag, i, done, r)
    ensures var e := RangeScan(v, cand, flag, i, end);
      if done then r == e else e == RangeScan(v, cand, flag, i + 1, end)
  {
  }

  /** Past the last candidate the scan is exhausted. */
  lemma RangeScanPast(v: nat -> Verdict, cand: nat -> Block, flag: nat -> bool, i: nat, end: nat)
    requires i > end
    ensures RangeScan(v, cand, flag, i, end) == Exhausted
  {
  }

  /** Candidate j neither stops the worker nor ends its scan. */
  predicate RangePasses(v: nat -> Verdict, flag: nat -> bool, j: nat)
  {
    !(j % 1000000 == 0 && flag(j)) && v(j) == Rejected
  }

  /** snprintf(buf, size, ...) producing `text`: its first characters, then the terminating NUL. */
  method SnprintfInto(buf: array<byte>, size: nat, text: seq<byte>)
    requires 1 <= size <= buf.Length
    modifies buf
    ensures var s := Snprintf(text, size);
      buf[..] == s + [Nul] + old(buf[|s| + 1..])
  {
    var s := Snprintf(text, size);
    forall k | 0 <= k < |s| {
      buf[k] := s[k];
    }
    buf[|s|] := Nul;
  }

  /** memset(buf, 0, n). */
  method ClearPrefix(buf: array<byte>, n: nat)
    requires n <= buf.Length
    modifies buf
    ensures buf[..] == Zeros(n) + old(buf[n..])
  {
    forall k | 0 <= k < n {
      buf[k] := 0;
    }
  }

  /** v and cand give the verdict and the Broadcast Code of numeric candidate j for byte length L. */
  ghost predicate NumericAt(t: SearchTarget, bcLength: nat, v: nat -> Verdict, cand: nat -> Block, j: nat)
  {
    v(j) == Check(t, NumericCandidate(j, bcLength)) && cand(j) == NumericCandidate(j, bcLength)
  }

  /**
   * bruteforce_range_job: for i from start to end, read the flag when i is
   * a multiple of 1000000, format candidate i into the cleared 16-byte
   * buffer, derive the GSK (a failure ends the process) and try to decrypt.
   */
  method RangeJob(t: SearchTarget, bcLength: nat, flag: nat -> bool, start: nat, end: nat, out: array<byte>)
    returns (r: JobEnd)
    modifies out
    ensures r == RangeScan(NumericVerdicts(t, bcLength), NumericCandidates(bcLength), flag, start, end)
  {
    var code := new byte[16](_ => 0);
    r := RangeLoop(t, bcLength, flag, start, end, code, out, NumericVerdicts(t, bcLength), NumericCandidates(bcLength));
  }

  /**
   * The loop of bruteforce_range_job over the cleared buffer code, for any
   * v and cand that agree with the numeric candidates.
   */
  method RangeLoop(t: SearchTarget, bcLength: nat, flag: nat -> bool, start: nat, end: nat,
                   code: array<byte>, out: array<byte>, ghost v: nat -> Verdict, ghost cand: nat -> Block)
    returns (r: JobEnd)
    requires code.Length == 16 && (forall k :: 0 <= k < 16 ==> code[k] == 0) && code != out
    requires forall j :: NumericAt(t, bcLength, v, cand, j)
    modifies code, out
    ensures r == RangeScan(v, cand, flag, start, end)
  {
    var i := start;
    while i <= end
      invariant code != out && code.Length == 16 && forall k :: 0 <= k < 16 ==> code[k] == 0
      invariant RangeScan(v, cand, flag, start, end) == RangeScan(v, cand, flag, i, end)
      decreases end + 1 - i
    {
      var done;
      done, r := RangeStep(t, bcLength, flag, i, code, out, v, cand);
      RangeScanByStep(v, cand, flag, i, end, done, r);
      if done {
        return;
      }
      i := i + 1;
    }
    RangeScanPast(v, cand, flag, i, end);
    return Exhausted;
  }

  /**
   * One pass of the loop of bruteforce_range_job with candidate i, as
   * RangeStepTaken states it; when the scan goes on, the buffer is clear
   * again.
   */
  method RangeStep(t: SearchTarget, bcLength: nat, flag: nat -> bool, i: nat, code: array<byte>, out: array<byte>,
                   ghost v: nat -> Verdict, ghost cand: nat -> Block)
    returns (done: bool, r: JobEnd)
    requires code.Length == 16 && (forall k :: 0 <= k < 16 ==> code[k] == 0) && code != out
    requires forall j :: NumericAt(t, bcLength, v, cand, j)
    modifies code, out
    ensures RangeStepTaken(v, cand, flag, i, done, r)
    ensures !done ==> forall k :: 0 <= k < 16 ==> code[k] == 0
  {
    if i % 1000000 == 0 {
      if flag(i) {
        return true, Stopped(i);
      }
    }
    assert NumericAt(t, bcLength, v, cand, i);
    var ret := TryNumeric(t, bcLength, i, code, out);
    if ret.KdfFailed? {
      return true, ProcessExit(i);
    }
    if ret.Accepted? {
      return true, Found(i, code[..]);
    }
    ClearPrefix(code, 16);
    return false, Exhausted;
  }

  /** Candidate i formatted into the cleared buffer, then tried. */
  method TryNumeric(t: SearchTarget, bcLength: nat, i: nat, code: array<byte>, out: array<byte>)
    returns (v: Verdict)
    requires code.Length == 16 && code[..] == Zeros(16) && code != out
    modifies code, out
    ensures code[..] == NumericCandidate(i, bcLength)
    ensures v == Check(t, NumericCandidate(i, bcLength))
  {
    FormatInto(code, NumericText(i, bcLength));
    NumericTextFits(i, bcLength);
    v := TryCode(t, code[..], out);
  }

  /** snprintf of the formatted text into the cleared 16-byte buffer. */
  method FormatInto(code: array<byte>, text: seq<byte>)
    requires code.Length == 16 && code[..] == Zeros(16)
    modifies code
    ensures code[..] == Snprintf(text, 16) + Zeros(16 - |Snprintf(text, 16)|)
  {
    SnprintfInto(code, 16, text);
  }

  /**
   * The body both workers share: bt_bis_gsk into a zeroed 16-byte gsk, then,
   * when it returns 0, bt_bis_pdu_decrypt into out.
   */
  method TryCode(t: SearchTarget, code: Block, out: array<byte>) returns (v: Verdict)
    modifies out
    ensures v == Checker(t)(code)
  {
    var gsk := new byte[16](_ => 0);
    var ret := BisGsk(t.tb, code, t.gskd, gsk);
    GskResult(t.tb, code, t.gskd);
    if ret != 0 {
      return KdfFailed(ret);
    }
    ret := BisPduDecrypt(t.ccm, t.pdu, PduLength(t.pdu), gsk[..], t.nonce, 0, out);
    if ret == 0 {
      return Accepted;
    }
    return Rejected;
  }

  /**
   * The numeric worker tries start, start + 1, ... in order and ends at the
   * first candidate that stops it: Found at the first one that decrypts,
   * Stopped at the first multiple of 1000000 where the flag is set,
   * ProcessExit at the first GSK failure; Exhausted exactly when every
   * candidate of the chunk passes.
   */
  lemma {:induction false} RangeScanResult(v: nat -> Verdict, cand: nat -> Block, flag: nat -> bool, i: nat, end: nat)
    ensures var r := RangeScan(v, cand, flag, i, end);
      && (r.Found? ==>
            (i <= r.at <= end && r.code == cand(r.at) && v(r.at) == Accepted
             && !(r.at % 1000000 == 0 && flag(r.at))
             && forall j :: i <= j < r.at ==> RangePasses(v, flag, j)))
      && (r.Stopped? ==>
            (i <= r.at <= end && r.at % 1000000 == 0 && flag(r.at)
             && forall j :: i <= j < r.at ==> RangePasses(v, flag, j)))
      && (r.ProcessExit? ==>
            (i <= r.at <= end && v(r.at).KdfFailed?
             && forall j :: i <= j < r.at ==> RangePasses(v, flag, j)))
      && (r.Exhausted? <==> forall j :: i <= j <= end ==> RangePasses(v, flag, j))
    decreases end + 1 - i
  {
    if i <= end && RangePasses(v, flag, i) {
      RangeScanResult(v, cand, flag, i + 1, end);
    }
  }

  /** The flag is only read at multiples of 1000000: its value elsewhere changes nothing. */
  lemma {:induction false} RangeScanReadsFlagAtMillions(v: nat -> Verdict, cand: nat -> Block,
                                                      f1: nat -> bool, f2: nat -> bool, i: nat, end: nat)
    requires forall j :: j % 1000000 == 0 ==> f1(j) == f2(j)
    ensures RangeScan(v, cand, f1, i, end) == RangeScan(v, cand, f2, i, end)
    decreases end + 1 - i
  {
    if i <= end {
      RangeScanReadsFlagAtMillions(v, cand, f1, f2, i + 1, end);
    }
  }

  /* ----------------------------------------------------- wordlist job */

  /** How a wordlist worker ends, with its processed_lines counter. */
  datatype SliceEnd = SliceEnd(end: JobEnd, lines: nat)

  /** The 17-byte broadcast_code buffer of a wordlist worker. */
  type Buffer = b: seq<byte> | |b| == 17 witness Zeros(17)

  /** What the buffer holds after fgets stored chunk c and the trailing newline was stripped. */
  function LineLoad(): (Buffer, seq<byte>) -> Buffer
  {
    (buf: Buffer, c: seq<byte>) => if |c| <= 16 then StripNewline(AfterFgets(buf, c)) else buf
  }

  /** fgets(buf, 17, f) at each offset of the wordlist w. */
  function Fgets(w: seq<byte>): nat -> seq<byte>
  {
    (pos: nat) => FgetsRead(w, pos, 16)
  }

  /** Reading at an offset gets nothing, or bytes that end within the first n. */
  ghost predicate ReadsForward(read: nat -> seq<byte>, n: nat)
  {
    forall pos: nat :: read(pos) == [] || pos + |read(pos)| <= n
  }

  lemma FgetsForward(w: seq<byte>)
    ensures ReadsForward(Fgets(w), |w|)
  {
  }

  /**
   * The wordlist worker's scan from offset pos with buffer contents buf:
   * read the next chunk (read(pos), which is Fgets(w)(pos) for the worker)
   * while pos < end and the read gets something, check the flag, load the
   * chunk into the buffer (load(buf, c), which is LineLoad() for the worker)
   * and try its first 16 bytes, check(code) being what trying code leads
   * to. A GSK failure moves on without counting the line or clearing the
   * buffer.
   */
  function SliceScan(check: Block -> Verdict, load: (Buffer, seq<byte>) -> Buffer, read: nat -> seq<byte>, n: nat,
                     flag: nat -> bool, pos: nat, end: nat, buf: Buffer, lines: nat): SliceEnd
    requires ReadsForward(read, n)
    decreases n - pos
  {
    var c := read(pos);
    if pos >= end || c == [] then SliceEnd(Exhausted, lines)
    else if flag(pos) then SliceEnd(Stopped(pos), lines)
    else
      var b := load(buf, c);
      var v := check(b[..16]);
      if v.Accepted? then SliceEnd(Found(pos, b[..16]), lines)
      else SliceScan(check, load, read, n, flag, pos + |c|, end, AfterTry(v, b), if v.KdfFailed? then lines else lines + 1)
  }

  /** The buffer after a try that did not succeed: memset to zero after a failed decryption, untouched after a GSK failure. */
  function AfterTry(v: Verdict, b: Buffer): Buffer
  {
    if v.KdfFailed? then b else Zeros(16) + b[16..]
  }

  lemma LineLoadIs(buf: Buffer, c: seq<byte>)
    requires |c| <= 16
    ensures LineLoad()(buf, c) == StripNewline(AfterFgets(buf, c))
  {
  }

  /** The chunks at which the wordlist scan ends. */
  lemma SliceScanEnds(check: Block -> Verdict, load: (Buffer, seq<byte>) -> Buffer, read: nat -> seq<byte>, n: nat,
                      flag: nat -> bool, pos: nat, end: nat, buf: Buffer, lines: nat)
    requires ReadsForward(read, n)
    ensures var c := read(pos);
      var e := SliceScan(check, load, read, n, flag, pos, end, buf, lines);
      && (pos >= end || c == [] ==> e == SliceEnd(Exhausted, lines))
      && (pos < end && c != [] && flag(pos) ==> e == SliceEnd(Stopped(pos), lines))
      && (pos < end && c != [] && !flag(pos) && check(load(buf, c)[..16]).Accepted? ==>
            e == SliceEnd(Found(pos, load(buf, c)[..16]), lines))
  {
  }

  /**
   * What one pass of the wordlist loop does at offset pos, in terms of the
   * chunk read there: ends the scan (no chunk, the flag, an accepted code)
   * or moves on to the next chunk with the buffer and count it leaves.
   */
  ghost predicate StepTaken(check: Block -> Verdict, load: (Buffer, seq<byte>) -> Buffer, read: nat -> seq<byte>,
                            flag: nat -> bool, pos: nat, buf: Buffer, lines: nat,
                            done: bool, r: JobEnd, next: nat, buf': Buffer, lines': nat)
  {
    var c := read(pos);
    if c == [] then done && r == Exhausted && lines' == lines
    else if flag(pos) then done && r == Stopped(pos) && lines' == lines
    else
      var b := load(buf, c);
      var v := check(b[..16]);
      && done == v.Accepted?
      && (done ==> r == Found(pos, b[..16]) && lines' == lines)
      && (!done ==> next == pos + |c| && buf' == AfterTry(v, b) && lines' == if v.KdfFailed? then lines else lines + 1)
  }

  /** A pass that does what StepTaken says takes the scan one chunk further. */
  lemma SliceScanByStep(check: Block -> Verdict, load: (Buffer, seq<byte>) -> Buffer, read: nat -> seq<byte>, n: nat,
                        flag: nat -> bool, pos: nat, end: nat, buf: Buffer, lines: nat,
                        done: bool, r: JobEnd, next: nat, buf': Buffer, lines': nat)
    requires ReadsForward(read, n) && pos < end
    requires StepTaken(check, load, read, flag, pos, buf, lines, done, r, next, buf', lines')
    ensures var e := SliceScan(check, load, read, n, flag, pos, end, buf, lines);
      if done then SliceEnd(r, lines') == e
      else pos < next <= n && e == SliceScan(check, load, read, n, flag, next, end, buf', lines')
  {
  }

  /** The code a worker tries is the line candidate of the chunk it read. */
  lemma LineLoadCandidate(buf: Buffer, c: seq<byte>)
    requires |c| <= 16
    ensures LineLoad()(buf, c)[..16] == LineCandidate(buf, c)
  {
  }

  /** fgets(buf, 17, f) reading chunk c. */
  method FgetsInto(buf: array<byte>, c: seq<byte>)
    requires buf.Length == 17 && |c| <= 16
    modifies buf
    ensures buf[..] == AfterFgets(old(buf[..]), c)
  {
    forall k | 0 <= k < |c| {
      buf[k] := c[k];
    }
    buf[|c|] := Nul;
  }

  /** The newline strip on the buffer, in place. */
  method StripInPlace(buf: array<byte>)
    modifies buf
    ensures buf[..] == StripNewline(old(buf[..]))
  {
    var len := Strlen(buf[..]);
    if len > 0 && buf[len - 1] == LineFeed {
      buf[len - 1] := Nul;
    }
  }

  /**
   * bruteforce_slice_job over the wordlist bytes `w`, starting at offset
   * start: returns how it ended and the processed_lines count.
   */
  method SliceJob(t: SearchTarget, w: seq<byte>, flag: nat -> bool, start: nat, end: nat, out: array<byte>)
    returns (r: JobEnd, lines: nat)
    modifies out
    ensures SliceEnd(r, lines) == (FgetsForward(w); SliceScan(Checker(t), LineLoad(), Fgets(w), |w|, flag, start, end, Zeros(17), 0))
  {
    ghost var check, load, read := Checker(t), LineLoad(), Fgets(w);
    FgetsForward(w);
    var code := new byte[17](_ => 0);
    var pos := start;
    lines := 0;
    assert code[..] == Zeros(17);
    while pos < end
      invariant code.Length == 17
      invariant SliceScan(check, load, read, |w|, flag, start, end, Zeros(17), 0)
                == SliceScan(check, load, read, |w|, flag, pos, end, code[..], lines)
      decreases |w| - pos
    {
      ghost var prev, before := code[..], lines;
      var done, next;
      done, r, next, lines := SliceStep(t, w, flag, pos, code, lines, out);
      SliceScanByStep(check, load, read, |w|, flag, pos, end, prev, before, done, r, next, code[..], lines);
      if done {
        return;
      }
      pos := next;
    }
    SliceScanEnds(check, load, read, |w|, flag, pos, end, code[..], lines);
    return Exhausted, lines;
  }

  /**
   * One pass of the loop of bruteforce_slice_job at offset pos: fgets, the
   * stop flag, the strip and the try, as StepTaken states them for the
   * wordlist w.
   */
  method SliceStep(t: SearchTarget, w: seq<byte>, flag: nat -> bool, pos: nat,
                   code: array<byte>, lines: nat, out: array<byte>)
    returns (done: bool, r: JobEnd, next: nat, lines': nat)
    requires code.Length == 17 && code != out
    modifies code, out
    ensures StepTaken(Checker(t), LineLoad(), Fgets(w), flag, pos, old(code[..]), lines, done, r, next, code[..], lines')
  {
    ghost var prev: Buffer := code[..];
    var c := FgetsRead(w, pos, code.Length - 1);
    assert c == Fgets(w)(pos);
    if c == [] {
      return true, Exhausted, pos, lines;
    }
    FgetsInto(code, c);
    if flag(pos) {
      return true, Stopped(pos), pos, lines;
    }
    ghost var b, v;
    done, r, lines', b, v := LineStep(t, pos, code, prev, c, lines, out);
    next := pos + |c|;
  }

  /**
   * The rest of the pass once fgets stored chunk c read at offset pos: strip
   * the newline, try the code (b the buffer tried, v the verdict), and on a
   * failed decryption count the line and clear the code.
   */
  method LineStep(t: SearchTarget, pos: nat, code: array<byte>, ghost prev: Buffer, c: seq<byte>,
                  lines: nat, out: array<byte>)
    returns (done: bool, r: JobEnd, lines': nat, ghost b: Buffer, ghost v: Verdict)
    requires code.Length == 17 && |c| <= 16 && code[..] == AfterFgets(prev, c) && code != out
    modifies code, out
    ensures b == LineLoad()(prev, c) && v == Checker(t)(b[..16])
    ensures done == v.Accepted?
    ensures done ==> r == Found(pos, b[..16]) && lines' == lines
    ensures !done ==> code[..] == AfterTry(v, b) && lines' == if v.KdfFailed? then lines else lines + 1
  {
    var verdict := TryLine(t, code, prev, c, out);
    v, b := verdict, code[..];
    if verdict.KdfFailed? {
      return false, Exhausted, lines, b, v;
    }
    if verdict.Accepted? {
      return true, Found(pos, code[..16]), lines, b, v;
    }
    ClearPrefix(code, 16);
    assert code[..] == AfterTry(v, b);
    return false, Exhausted, lines + 1, b, v;
  }

  /** The newline strip on the chunk fgets stored, then the GSK and the decryption. */
  method TryLine(t: SearchTarget, code: array<byte>, ghost prev: Buffer, c: seq<byte>, out: array<byte>)
    returns (v: Verdict)
    requires code.Length == 17 && |c| <= 16 && code[..] == AfterFgets(prev, c) && code != out
    modifies code, out
    ensures code[..] == LineLoad()(prev, c)
    ensures v == Checker(t)(code[..16])
  {
    StripInPlace(code);
    LineLoadIs(prev, c);
    v := TryCode(t, code[..16], out);
  }

  /**
   * The offsets at which the worker reads a chunk: pos, then the offset
   * after each chunk, while below end and while the read gets something.
   */
  function ChunkStarts(read: nat -> seq<byte>, n: nat, pos: nat, end: nat): seq<nat>
    requires ReadsForward(read, n)
    decreases n - pos
  {
    var c := read(pos);
    if pos >= end || c == [] then [] else [pos] + ChunkStarts(read, n, pos + |c|, end)
  }

  lemma ChunkStartsStep(read: nat -> seq<byte>, n: nat, pos: nat, end: nat)
    requires ReadsForward(read, n) && pos < end && read(pos) != []
    ensures ChunkStarts(read, n, pos, end) == [pos] + ChunkStarts(read, n, pos + |read(pos)|, end)
  {
  }

  /**
   * Reading goes on while the offset before the read is below end: every
   * chunk is read at an offset before end (and is read whole even when it
   * runs past end) where the read gets something, the first at pos; the
   * reads stop only at end or later or where the read gets nothing.
   */
  lemma {:induction false} ChunkStartsBounds(read: nat -> seq<byte>, n: nat, pos: nat, end: nat)
    requires ReadsForward(read, n)
    ensures var s := ChunkStarts(read, n, pos, end);
      && (forall k :: 0 <= k < |s| ==> pos <= s[k] < end && read(s[k]) != [])
      && (s != [] <==> pos < end && read(pos) != [])
      && (s != [] ==> s[0] == pos)
    decreases n - pos
  {
    var c := read(pos);
    if pos < end && c != [] {
      var s := ChunkStarts(read, n, pos, end);
      var s' := ChunkStarts(read, n, pos + |c|, end);
      ChunkStartsStep(read, n, pos, end);
      ChunkStartsBounds(read, n, pos + |c|, end);
      assert forall k :: 0 <= k < |s'| ==> pos + |c| <= s'[k] < end && read(s'[k]) != [];
    }
  }

  /** Each chunk starts where the previous one stopped. */
  lemma {:induction false} ChunkStartsChain(read: nat -> seq<byte>, n: nat, pos: nat, end: nat)
    requires ReadsForward(read, n)
    ensures var s := ChunkStarts(read, n, pos, end);
      forall k :: 0 <= k && k + 1 < |s| ==> s[k + 1] == s[k] + |read(s[k])|
    decreases n - pos
  {
    var c := read(pos);
    if pos < end && c != [] {
      var s := ChunkStarts(read, n, pos, end);
      var s' := ChunkStarts(read, n, pos + |c|, end);
      ChunkStartsStep(read, n, pos, end);
      ChunkStartsChain(read, n, pos + |c|, end);
      ChunkStartsBounds(read, n, pos + |c|, end);
      forall k | 0 <= k && k + 1 < |s|
        ensures s[k + 1] == s[k] + |read(s[k])|
      {
        if k > 0 {
          assert s[k] == s'[k - 1] && s[k + 1] == s'[k];
        }
      }
    }
  }

  /**
   * The worker reads up to the first chunk boundary at or past end, or to
   * the end of the file, and no further: after the last chunk either the
   * offset is no longer below end or the read gets nothing.
   */
  lemma {:induction false} ChunkStartsStop(read: nat -> seq<byte>, n: nat, pos: nat, end: nat)
    requires ReadsForward(read, n)
    ensures var s := ChunkStarts(read, n, pos, end);
      s != [] ==> var e := s[|s| - 1] + |read(s[|s| - 1])|; e >= end || read(e) == []
    decreases n - pos
  {
    var c := read(pos);
    if pos < end && c != [] {
      var s := ChunkStarts(read, n, pos, end);
      var s' := ChunkStarts(read, n, pos + |c|, end);
      ChunkStartsStep(read, n, pos, end);
      ChunkStartsStop(read, n, pos + |c|, end);
      if s' != [] {
        assert s[|s| - 1] == s'[|s'| - 1];
      }
    }
  }

  /**
   * A line with more than 16 bytes before its newline, read from pos < end:
   * its first 16 bytes are one chunk, and the rest is read by this worker
   * exactly when the offset after them is still below end; otherwise the
   * worker stops in the middle of the line.
   */
  lemma LongLineChunks(w: seq<byte>, pos: nat, end: nat)
    requires pos < end && pos + 16 < |w| && LineFeed !in w[pos..pos + 16]
    ensures var s := (FgetsForward(w); ChunkStarts(Fgets(w), |w|, pos, end));
      && |s| >= 1 && s[0] == pos && FgetsRead(w, pos, 16) == w[pos..pos + 16]
      && (pos + 16 < end ==> |s| >= 2 && s[1] == pos + 16)
      && (pos + 16 >= end ==> s == [pos])
  {
    FgetsForward(w);
    LongLineSplits(w, pos);
    ChunkStartsStep(Fgets(w), |w|, pos, end);
    if pos + 16 < end {
      ChunkStartsStep(Fgets(w), |w|, pos + 16, end);
    }
  }

  /**
   * A worker that stops or succeeds does so at one of the chunks it reads,
   * and what it hands over as the Broadcast Code passes the check.
   */
  lemma {:induction false} SliceScanResult(check: Block -> Verdict, load: (Buffer, seq<byte>) -> Buffer,
                                           read: nat -> seq<byte>, n: nat, flag: nat -> bool, pos: nat, end: nat,
                                           buf: Buffer, lines: nat)
    requires ReadsForward(read, n)
    ensures var r := SliceScan(check, load, read, n, flag, pos, end, buf, lines).end;
      && (r.Found? ==> r.at in ChunkStarts(read, n, pos, end) && check(r.code) == Accepted && !flag(r.at))
      && (r.Stopped? ==> r.at in ChunkStarts(read, n, pos, end) && flag(r.at))
    decreases n - pos
  {
    var c := read(pos);
    if pos < end && c != [] {
      ChunkStartsStep(read, n, pos, end);
      var b := load(buf, c);
      var v := check(b[..16]);
      if !flag(pos) && !v.Accepted? {
        SliceScanResult(check, load, read, n, flag, pos + |c|, end, AfterTry(v, b), if v.KdfFailed? then lines else lines + 1);
      }
    }
  }

  /**
   * The codes the wordlist scan tries, in order: the first 16 bytes of the
   * buffer after each chunk is loaded, the buffer being passed on through
   * AfterTry. The list ends with the first code that is accepted, or where
   * the flag is found set or the chunks run out.
   */
  ghost function Tried(check: Block -> Verdict, load: (Buffer, seq<byte>) -> Buffer, read: nat -> seq<byte>, n: nat,
                       flag: nat -> bool, pos: nat, end: nat, buf: Buffer): seq<Block>
    requires ReadsForward(read, n)
    decreases n - pos
  {
    var c := read(pos);
    if pos >= end || c == [] || flag(pos) then []
    else
      var b := load(buf, c);
      var v := check(b[..16]);
      if v.Accepted? then [b[..16]]
      else [b[..16]] + Tried(check, load, read, n, flag, pos + |c|, end, AfterTry(v, b))
  }

  /** No code in t passes the check. */
  ghost predicate NoneAccepted(check: Block -> Verdict, t: seq<Block>)
  {
    forall k :: 0 <= k < |t| ==> !check(t[k]).Accepted?
  }

  lemma NoneAcceptedCons(check: Block -> Verdict, x: Block, t: seq<Block>)
    requires !check(x).Accepted? && NoneAccepted(check, t)
    ensures NoneAccepted(check, [x] + t)
  {
    assert forall k :: 1 <= k < 1 + |t| ==> ([x] + t)[k] == t[k - 1];
  }

  /**
   * The code a worker hands over is the first accepted one it tries: every
   * code tried before it fails the check. A worker that stops or runs out
   * of chunks tried no code that passes.
   */
  lemma {:induction false} SliceScanFirstAccepted(check: Block -> Verdict, load: (Buffer, seq<byte>) -> Buffer,
                                                  read: nat -> seq<byte>, n: nat, flag: nat -> bool, pos: nat,
                                                  end: nat, buf: Buffer, lines: nat)
    requires ReadsForward(read, n)
    ensures var r := SliceScan(check, load, read, n, flag, pos, end, buf, lines).end;
      var t := Tried(check, load, read, n, flag, pos, end, buf);
      && (r.Found? ==> |t| > 0 && t[|t| - 1] == r.code && NoneAccepted(check, t[..|t| - 1]))
      && (!r.Found? ==> NoneAccepted(check, t))
    decreases n - pos
  {
    var c := read(pos);
    if pos < end && c != [] && !flag(pos) {
      var b := load(buf, c);
      var v := check(b[..16]);
      if v.Accepted? {
        assert Tried(check, load, read, n, flag, pos, end, buf)[..0] == [];
      } else {
        var lines' := if v.KdfFailed? then lines else lines + 1;
        var t' := Tried(check, load, read, n, flag, pos + |c|, end, AfterTry(v, b));
        var t := Tried(check, load, read, n, flag, pos, end, buf);
        var r' := SliceScan(check, load, read, n, flag, pos + |c|, end, AfterTry(v, b), lines').end;
        SliceScanFirstAccepted(check, load, read, n, flag, pos + |c|, end, AfterTry(v, b), lines');
        assert SliceScan(check, load, read, n, flag, pos, end, buf, lines).end == r';
        assert t == [b[..16]] + t';
        if r'.Found? {
          assert t[..|t| - 1] == [b[..16]] + t'[..|t'| - 1];
          NoneAcceptedCons(check, b[..16], t'[..|t'| - 1]);
        } else {
          NoneAcceptedCons(check, b[..16], t');
        }
      }
    }
  }

  /** A worker that runs out of chunks tried a code at every one of them. */
  lemma {:induction false} SliceScanTriedAll(check: Block -> Verdict, load: (Buffer, seq<byte>) -> Buffer,
                                             read: nat -> seq<byte>, n: nat, flag: nat -> bool, pos: nat,
                                             end: nat, buf: Buffer, lines: nat)
    requires ReadsForward(read, n)
    ensures SliceScan(check, load, read, n, flag, pos, end, buf, lines).end.Exhausted? ==>
      |Tried(check, load, read, n, flag, pos, end, buf)| == |ChunkStarts(read, n, pos, end)|
    decreases n - pos
  {
    var c := read(pos);
    if pos < end && c != [] && !flag(pos) {
      ChunkStartsStep(read, n, pos, end);
      var b := load(buf, c);
      var v := check(b[..16]);
      if !v.Accepted? {
        SliceScanTriedAll(check, load, read, n, flag, pos + |c|, end, AfterTry(v, b),
                          if v.KdfFailed? then lines else lines + 1);
      }
    }
  }

  /** Unlike the numeric worker, a wordlist worker never ends the process: a GSK failure skips the line. */
  lemma {:induction false} SliceScanNeverExits(check: Block -> Verdict, load: (Buffer, seq<byte>) -> Buffer,
                                               read: nat -> seq<byte>, n: nat, flag: nat -> bool, pos: nat, end: nat,
                                               buf: Buffer, lines: nat)
    requires ReadsForward(read, n)
    ensures !SliceScan(check, load, read, n, flag, pos, end, buf, lines).end.ProcessExit?
    decreases n - pos
  {
    var c := read(pos);
    if pos < end && c != [] && !flag(pos) {
      var b := load(buf, c);
      var v := check(b[..16]);
      if !v.Accepted? {
        SliceScanNeverExits(check, load, read, n, flag, pos + |c|, end, AfterTry(v, b), if v.KdfFailed? then lines else lines + 1);
      }
    }
  }

  /** A worker that runs out of chunks found the flag clear at every one of them. */
  lemma {:induction false} SliceScanExhaustedFlags(check: Block -> Verdict, load: (Buffer, seq<byte>) -> Buffer,
                                                   read: nat -> seq<byte>, n: nat, flag: nat -> bool, pos: nat,
                                                   end: nat, buf: Buffer, lines: nat)
    requires ReadsForward(read, n)
    ensures SliceScan(check, load, read, n, flag, pos, end, buf, lines).end.Exhausted? ==>
      forall x :: x in ChunkStarts(read, n, pos, end) ==> !flag(x)
    decreases n - pos
  {
    var c := read(pos);
    if pos < end && c != [] {
      ChunkStartsStep(read, n, pos, end);
      var b := load(buf, c);
      var v := check(b[..16]);
      if !flag(pos) && !v.Accepted? {
        SliceScanExhaustedFlags(check, load, read, n, flag, pos + |c|, end, AfterTry(v, b),
                                if v.KdfFailed? then lines else lines + 1);
      }
    }
  }

  /** processed_lines counts at most one line per chunk read, and never goes down. */
  lemma {:induction false} SliceScanLines(check: Block -> Verdict, load: (Buffer, seq<byte>) -> Buffer,
                                          read: nat -> seq<byte>, n: nat, flag: nat -> bool, pos: nat, end: nat,
                                          buf: Buffer, lines: nat)
    requires ReadsForward(read, n)
    ensures lines <= SliceScan(check, load, read, n, flag, pos, end, buf, lines).lines
                  <= lines + |ChunkStarts(read, n, pos, end)|
    decreases n - pos
  {
    var c := read(pos);
    if pos < end && c != [] && !flag(pos) {
      ChunkStartsStep(read, n, pos, end);
      var b := load(buf, c);
      var v := check(b[..16]);
      if !v.Accepted? {
        SliceScanLines(check, load, read, n, flag, pos + |c|, end, AfterTry(v, b), if v.KdfFailed? then lines else lines + 1);
      }
    }
  }

  /** A steady flag that is clear never stops a wordlist worker, and one that is set stops it at its first chunk. */
  lemma SliceScanSteadyFlag(check: Block -> Verdict, load: (Buffer, seq<byte>) -> Buffer, read: nat -> seq<byte>,
                            n: nat, found: bool, pos: nat, end: nat, buf: Buffer, lines: nat)
    requires ReadsForward(read, n)
    ensures var r := SliceScan(check, load, read, n, Steady(found), pos, end, buf, lines).end;
      && (!found ==> !r.Stopped?)
      && (found ==> r.Exhausted? || r == Stopped(pos))
  {
    SliceScanResult(check, load, read, n, Steady(found), pos, end, buf, lines);
  }

  /* ----------------------------------------------------- partitioning */

  /** A worker's chunk: candidates (or byte offsets) start to end, both included. */
  datatype Part = Part(start: nat, end: nat)

  /**
   * The chunks main hands out: chunk_size = range / num_threads candidates
   * for each of the num_threads workers, then the remainder chunk up to
   * loop_end when the division leaves a remainder.
   */
  function Partitions(loopEnd: nat, numThreads: nat): (parts: seq<Part>)
    requires PartitionPlan(loopEnd, numThreads)
  {
    var chunk := (loopEnd + 1) / numThreads;
    var rem := (loopEnd + 1) % numThreads;
    seq(numThreads, (i: int) requires 0 <= i => Part(i * chunk, i * chunk + chunk - 1))
    + (if rem > 0 then [Part(numThreads * chunk, loopEnd)] else [])
  }

  /** What main needs of its inputs: at least one candidate per worker, and total_threads fitting its uint8_t. */
  predicate PartitionPlan(loopEnd: nat, numThreads: nat)
  {
    && numThreads >= 1
    && (loopEnd + 1) / numThreads >= 1
    && numThreads + (if (loopEnd + 1) % numThreads > 0 then 1 else 0) <= 255
  }

  /** The thread setup loop of main and the remainder thread after it. */
  method PlanPartitions(loopEnd: nat, numThreads: nat) returns (parts: seq<Part>)
    requires PartitionPlan(loopEnd, numThreads)
    ensures parts == Partitions(loopEnd, numThreads)
  {
    var range := loopEnd + 1;
    var chunk := range / numThreads;
    var rem := range % numThreads;
    parts := [];
    var currentStart := 0;
    var i := 0;
    while i < numThreads
      invariant 0 <= i <= numThreads
      invariant currentStart == i * chunk
      invariant parts == seq(i, (k: int) requires 0 <= k => Part(k * chunk, k * chunk + chunk - 1))
    {
      var p := Part(currentStart, currentStart + chunk - 1);
      parts := parts + [p];
      currentStart := p.end + 1;
      i := i + 1;
    }
    if rem > 0 {
      parts := parts + [Part(currentStart, loopEnd)];
    }
  }

  /** The chunks cover lo to hi in order: each starts where the previous one ended, none is empty. */
  predicate Tiles(parts: seq<Part>, lo: nat, hi: int)
    decreases |parts|
  {
    if parts == [] then lo == hi + 1
    else parts[0].start == lo && parts[0].start <= parts[0].end && Tiles(parts[1..], parts[0].end + 1, hi)
  }

  lemma {:induction false} PartitionSuffixTiles(loopEnd: nat, numThreads: nat, i: nat)
    requires PartitionPlan(loopEnd, numThreads) && i <= numThreads
    ensures Tiles(Partitions(loopEnd, numThreads)[i..], i * ((loopEnd + 1) / numThreads), loopEnd)
    decreases numThreads - i
  {
    var chunk := (loopEnd + 1) / numThreads;
    var rem := (loopEnd + 1) % numThreads;
    var parts := Partitions(loopEnd, numThreads);
    assert loopEnd + 1 == numThreads * chunk + rem;
    if i < numThreads {
      PartitionSuffixTiles(loopEnd, numThreads, i + 1);
      assert parts[i..][1..] == parts[i + 1..];
      assert (i + 1) * chunk == i * chunk + chunk;
    } else if rem > 0 {
      assert parts[i..] == [Part(numThreads * chunk, loopEnd)];
      assert parts[i..][1..] == [];
    } else {
      assert parts[i..] == [];
    }
  }

  /**
   * There are num_threads chunks of chunk_size, plus one more exactly when
   * the division leaves a remainder; together they cover 0 to loop_end in
   * order, without overlap or gap.
   */
  lemma PartitionsTile(loopEnd: nat, numThreads: nat)
    requires PartitionPlan(loopEnd, numThreads)
    ensures var parts := Partitions(loopEnd, numThreads);
      var chunk := (loopEnd + 1) / numThreads;
      && |parts| == numThreads + (if (loopEnd + 1) % numThreads > 0 then 1 else 0)
      && (forall i :: 0 <= i < numThreads ==> parts[i] == Part(i * chunk, (i + 1) * chunk - 1))
      && ((loopEnd + 1) % numThreads > 0 ==> parts[numThreads] == Part(numThreads * chunk, loopEnd))
      && Tiles(parts, 0, loopEnd)
  {
    PartitionSuffixTiles(loopEnd, numThreads, 0);
    var parts := Partitions(loopEnd, numThreads);
    assert parts[0..] == parts;
  }

  /** Chunks that tile lo to hi hold every value in between, each in exactly one chunk. */
  lemma {:induction false} TilesCover(parts: seq<Part>, lo: nat, hi: int, x: nat)
    requires Tiles(parts, lo, hi) && lo <= x <= hi
    ensures exists k :: 0 <= k < |parts| && parts[k].start <= x <= parts[k].end
    ensures forall k, m :: (0 <= k < |parts| && 0 <= m < |parts| && parts[k].start <= x <= parts[k].end
                            && parts[m].start <= x <= parts[m].end) ==> k == m
    decreases |parts|
  {
    TilesOrdered(parts, lo, hi);
    if x > parts[0].end {
      TilesCover(parts[1..], parts[0].end + 1, hi, x);
      var k :| 0 <= k < |parts[1..]| && parts[1..][k].start <= x <= parts[1..][k].end;
      assert parts[k + 1].start <= x <= parts[k + 1].end;
    }
  }

  /** In a tiling, later chunks start after earlier ones end, all within lo to hi. */
  lemma {:induction false} TilesOrdered(parts: seq<Part>, lo: nat, hi: int)
    requires Tiles(parts, lo, hi)
    ensures forall k :: 0 <= k < |parts| ==> lo <= parts[k].start <= parts[k].end <= hi
    ensures forall k, m :: 0 <= k < m < |parts| ==> parts[k].end < parts[m].start
    decreases |parts|
  {
    if parts != [] {
      TilesOrdered(parts[1..], parts[0].end + 1, hi);
      assert forall k :: 1 <= k < |parts| ==> parts[k] == parts[1..][k - 1];
    }
  }

  /* ------------------------------------------------------------- main */

  /** numeric: 1 << 8L candidates; wordlist: the wordlist's bytes. */
  datatype Mode = Numeric(bcLength: nat) | Wordlist(words: seq<byte>)

  /** The search mode main can run: byte lengths 1 to 7 (1 << 64 is undefined in C). */
  predicate ValidMode(m: Mode)
  {
    m.Numeric? ==> 1 <= m.bcLength <= 7
  }

  /** loop_end: 2^(8L) - 1 for numbers, the wordlist size for offsets. */
  function LoopEnd(m: Mode): nat
  {
    match m
    case Numeric(bcLength) => Pow(2, 8 * bcLength) - 1
    case Wordlist(w) => |w|
  }

  /** The numeric search covers 2^(8L) candidates, 0 to 2^(8L) - 1: 65536 of them for L = 2. */
  lemma NumericRange(bcLength: nat)
    ensures LoopEnd(Numeric(bcLength)) + 1 == Pow(2, 8 * bcLength)
    ensures bcLength == 2 ==> LoopEnd(Numeric(bcLength)) == 0xFFFF
  {
    if bcLength == 2 {
      PowAdd(2, 8, 8);
      assert Pow(2, 8) == 256;
    }
  }

  /** One worker run on a chunk, with a steady flag. */
  function JobOf(t: SearchTarget, m: Mode, p: Part, found: bool): JobEnd
  {
    match m
    case Numeric(bcLength) => RangeScan(NumericVerdicts(t, bcLength), NumericCandidates(bcLength), Steady(found), p.start, p.end)
    case Wordlist(w) =>
      FgetsForward(w);
      SliceScan(Checker(t), LineLoad(), Fgets(w), |w|, Steady(found), p.start, p.end, Zeros(17), 0).end
  }

  /** The workers of a search, as a function of the chunk and of the flag they start with. */
  function Jobs(t: SearchTarget, m: Mode): (Part, bool) -> JobEnd
  {
    (p: Part, found: bool) => JobOf(t, m, p, found)
  }

  const ExitSuccess: int := 0
  const ExitFailure: int := 1

  /**
   * The workers run in turn on their chunks: a GSK failure in a numeric
   * worker ends the process with EXIT_FAILURE; a worker that finds the code
   * sets the flag the later ones see; at the end the status follows the flag.
   */
  function RunWorkers(jobs: (Part, bool) -> JobEnd, parts: seq<Part>, found: bool): int
    decreases |parts|
  {
    if parts == [] then (if found then ExitSuccess else ExitFailure)
    else
      match jobs(parts[0], found)
      case ProcessExit(_) => ExitFailure
      case Found(_, _) => RunWorkers(jobs, parts[1..], true)
      case _ => RunWorkers(jobs, parts[1..], found)
  }

  /** The shared search data main derives from the BIGInfo record and the payload counter. */
  function TargetOf(tb: Toolbox, ccm: Ccm, b: BigInfo, pdu: seq<byte>, payloadCnt: nat): SearchTarget
    requires Valid(b) && |pdu| >= 2
  {
    var iv := Iv(b.giv, b.seedAccessAddr, 1);
    Target(tb, ccm, b.gskd, pdu, Nonce(LeBytes(payloadCnt, 5), iv, 1))
  }

  /**
   * The nonce main builds: the low four bytes of payload_cnt, its fifth byte
   * with the direction bit set, then the IV of BIS 1; the five count bytes
   * are payload_cnt modulo 2^40, little-endian.
   */
  lemma TargetNonce(tb: Toolbox, ccm: Ccm, b: BigInfo, pdu: seq<byte>, payloadCnt: nat)
    requires Valid(b) && |pdu| >= 2
    ensures var t := TargetOf(tb, ccm, b, pdu, payloadCnt);
      var pc := LeBytes(payloadCnt, 5);
      && LeValue(pc) == payloadCnt % Pow(256, 5)
      && t.nonce[..4] == pc[..4]
      && t.nonce[4] & 0x7F == pc[4] & 0x7F && Util.Bit(t.nonce[4], 7)
      && t.nonce[5..] == Iv(b.giv, b.seedAccessAddr, 1)
  {
    var pc := LeBytes(payloadCnt, 5);
    LeValueOfLeBytes(payloadCnt, 5);
    IvIsGivXorAccessAddress(b.giv, b.seedAccessAddr, 1);
    NonceLayout(pc, Iv(b.giv, b.seedAccessAddr, 1), 1);
  }

  /**
   * The search part of main: the IV of BIS 1, the nonce with direction 1
   * over the low five bytes of payload_cnt, the chunks, the workers, and the
   * exit status.
   */
  method Crack(tb: Toolbox, ccm: Ccm, m: Mode, pdu: seq<byte>, bigInfoFile: seq<byte>, payloadCnt: nat,
               numThreads: nat) returns (status: int)
    requires |pdu| >= 2 && |bigInfoFile| >= RecordSize
    requires ValidMode(m) && PartitionPlan(LoopEnd(m), numThreads)
    ensures var t := TargetOf(tb, ccm, Decode(bigInfoFile[..RecordSize]), pdu, payloadCnt);
      status == RunWorkers(Jobs(t, m), Partitions(LoopEnd(m), numThreads), false)
  {
    var b := Decode(bigInfoFile[..RecordSize]);
    var iv := new byte[8];
    BisIv(b.giv, b.seedAccessAddr, 1, iv);
    var nonce := new byte[13](_ => 0);
    BisNonce(LeBytes(payloadCnt, 5), iv[..], 1, nonce);
    var t: SearchTarget := Target(tb, ccm, b.gskd, pdu, nonce[..]);
    assert t == TargetOf(tb, ccm, b, pdu, payloadCnt);
    var loopEnd := if m.Numeric? then Pow(2, 8 * m.bcLength) - 1 else |m.words|;
    var parts := PlanPartitions(loopEnd, numThreads);
    status := RunAll(t, m, parts);
  }

  /** The workers in turn, each seeing whether an earlier one succeeded; then pthread_join and the exit status. */
  method RunAll(t: SearchTarget, m: Mode, parts: seq<Part>) returns (status: int)
    ensures status == RunWorkers(Jobs(t, m), parts, false)
  {
    ghost var jobs := Jobs(t, m);
    var found := false;
    var k := 0;
    while k < |parts|
      invariant 0 <= k <= |parts|
      invariant RunWorkers(jobs, parts, false) == RunWorkers(jobs, parts[k..], found)
    {
      assert parts[k..][1..] == parts[k + 1..];
      var r := RunJob(t, m, parts[k], found);
      assert r == jobs(parts[k], found);
      if r.ProcessExit? {
        return ExitFailure;
      }
      if r.Found? {
        found := true;
      }
      k := k + 1;
    }
    status := if found then ExitSuccess else ExitFailure;
  }

  /** One worker thread on its chunk, with its own decryption buffer. */
  method RunJob(t: SearchTarget, m: Mode, p: Part, found: bool) returns (r: JobEnd)
    ensures r == JobOf(t, m, p, found)
  {
    var out := new byte[|t.pdu|];
    if m.Numeric? {
      r := RangeJob(t, m.bcLength, Steady(found), p.start, p.end, out);
    } else {
      var lines;
      r, lines := SliceJob(t, m.words, Steady(found), p.start, p.end, out);
    }
  }

  /** No candidate from lo to hi makes bt_bis_gsk fail. */
  predicate KdfNeverFails(v: nat -> Verdict, lo: nat, hi: int)
  {
    forall i :: lo <= i <= hi ==> !v(i).KdfFailed?
  }

  /** Some candidate from lo to hi decrypts the PDU. */
  predicate SomeAccepted(v: nat -> Verdict, lo: nat, hi: int)
  {
    exists i :: lo <= i <= hi && v(i) == Accepted
  }

  /** Numeric workers over chunks tiling lo to hi, with no GSK failure: success exactly when a candidate decrypts. */
  lemma {:induction false} NumericRunExact(v: nat -> Verdict, cand: nat -> Block, jobs: (Part, bool) -> JobEnd,
                                           parts: seq<Part>, lo: nat, hi: int, found: bool)
    requires forall p, f :: jobs(p, f) == RangeScan(v, cand, Steady(f), p.start, p.end)
    requires Tiles(parts, lo, hi) && KdfNeverFails(v, lo, hi)
    ensures RunWorkers(jobs, parts, found) == ExitSuccess <==> found || SomeAccepted(v, lo, hi)
    ensures RunWorkers(jobs, parts, found) == ExitSuccess || RunWorkers(jobs, parts, found) == ExitFailure
    decreases |parts|
  {
    if parts != [] {
      var p := parts[0];
      var f := Steady(found);
      RangeScanResult(v, cand, f, p.start, p.end);
      TilesOrdered(parts, lo, hi);
      assert KdfNeverFails(v, p.end + 1, hi);
      var r := jobs(p, found);
      assert r == RangeScan(v, cand, f, p.start, p.end);
      if r.Found? {
        NumericRunExact(v, cand, jobs, parts[1..], p.end + 1, hi, true);
        assert v(r.at) == Accepted;
      } else if r.Exhausted? {
        NumericRunExact(v, cand, jobs, parts[1..], p.end + 1, hi, found);
        if !found && SomeAccepted(v, lo, hi) {
          var i :| lo <= i <= hi && v(i) == Accepted;
          assert !RangePasses(v, f, i);
          assert i > p.end;
        }
      } else if r.ProcessExit? {
        assert false;
      } else {
        assert found;
        NumericRunExact(v, cand, jobs, parts[1..], p.end + 1, hi, found);
      }
    }
  }

  /**
   * When no candidate makes bt_bis_gsk fail, the numeric search exits with
   * EXIT_SUCCESS exactly when some number from 0 to 2^(8L) - 1 gives a
   * Broadcast Code under which the PDU decrypts, and with EXIT_FAILURE
   * otherwise.
   */
  lemma NumericSearchExact(t: SearchTarget, bcLength: nat, numThreads: nat)
    requires ValidMode(Numeric(bcLength)) && PartitionPlan(LoopEnd(Numeric(bcLength)), numThreads)
    requires KdfNeverFails(NumericVerdicts(t, bcLength), 0, LoopEnd(Numeric(bcLength)))
    ensures var status := RunWorkers(Jobs(t, Numeric(bcLength)), Partitions(LoopEnd(Numeric(bcLength)), numThreads), false);
      && (status == ExitSuccess || status == ExitFailure)
      && (status == ExitSuccess <==> SomeAccepted(NumericVerdicts(t, bcLength), 0, LoopEnd(Numeric(bcLength))))
  {
    var loopEnd := LoopEnd(Numeric(bcLength));
    PartitionsTile(loopEnd, numThreads);
    NumericRunExact(NumericVerdicts(t, bcLength), NumericCandidates(bcLength), Jobs(t, Numeric(bcLength)),
                    Partitions(loopEnd, numThreads), 0, loopEnd, false);
  }

  /** A worker's Found result carries a Broadcast Code under which the PDU decrypts. */
  lemma JobFoundAccepted(t: SearchTarget, m: Mode, p: Part, found: bool)
    ensures var r := JobOf(t, m, p, found);
      r.Found? ==> Check(t, r.code) == Accepted
  {
    match m
    case Numeric(bcLength) =>
      RangeScanResult(NumericVerdicts(t, bcLength), NumericCandidates(bcLength), Steady(found), p.start, p.end);
    case Wordlist(w) =>
      FgetsForward(w);
      SliceScanResult(Checker(t), LineLoad(), Fgets(w), |w|, Steady(found), p.start, p.end, Zeros(17), 0);
  }

  /** EXIT_SUCCESS only when the flag was already set or some worker found a code its check accepts. */
  lemma {:induction false} RunWorkersSound(jobs: (Part, bool) -> JobEnd, check: Block -> Verdict,
                                           parts: seq<Part>, found: bool)
    requires forall p, f :: jobs(p, f).Found? ==> check(jobs(p, f).code) == Accepted
    ensures RunWorkers(jobs, parts, found) == ExitSuccess ==>
      found || exists k, b :: 0 <= k < |parts| && jobs(parts[k], b).Found? && check(jobs(parts[k], b).code) == Accepted
    decreases |parts|
  {
    if parts != [] {
      var r := jobs(parts[0], found);
      RunWorkersSound(jobs, check, parts[1..], r.Found? || found);
      if RunWorkers(jobs, parts, found) == ExitSuccess && !found {
        if r.Found? {
          assert jobs(parts[0], found).Found?;
        } else {
          var k, b :| 0 <= k < |parts[1..]| && jobs(parts[1..][k], b).Found?
                      && check(jobs(parts[1..][k], b).code) == Accepted;
          assert parts[1..][k] == parts[k + 1];
        }
      }
    }
  }

  /** The search as main runs it exits with EXIT_SUCCESS only when some worker found a code that decrypts the PDU. */
  lemma SearchSound(t: SearchTarget, m: Mode, parts: seq<Part>)
    ensures RunWorkers(Jobs(t, m), parts, false) == ExitSuccess ==>
      exists k, b :: 0 <= k < |parts| && JobOf(t, m, parts[k], b).Found?
                     && Check(t, JobOf(t, m, parts[k], b).code) == Accepted
  {
    forall p, f
      ensures Jobs(t, m)(p, f).Found? ==> Checker(t)(Jobs(t, m)(p, f).code) == Accepted
    {
      JobFoundAccepted(t, m, p, f);
    }
    RunWorkersSound(Jobs(t, m), Checker(t), parts, false);
  }

  /**
   * The wordlist "a\nbc\n" split between two workers: offsets 0..5 give
   * chunks 0..2 and 3..5. The first worker reads "a\n" and stops at offset
   * 2; the second starts inside the line "bc\n" and reads "c\n". The line
   * "bc" is never tried.
   */
  lemma WordlistBoundaryGap()
    ensures var w: seq<byte> := [0x61, LineFeed, 0x62, 0x63, LineFeed];
      && Partitions(|w|, 2) == [Part(0, 2), Part(3, 5)]
      && (FgetsForward(w); ChunkStarts(Fgets(w), |w|, 0, 2) == [0])
      && (FgetsForward(w); ChunkStarts(Fgets(w), |w|, 3, 5) == [3])
      && FgetsRead(w, 0, 16) == [0x61, LineFeed]
      && FgetsRead(w, 3, 16) == [0x63, LineFeed]
  {
    var w: seq<byte> := [0x61, LineFeed, 0x62, 0x63, LineFeed];
    assert FgetsRead(w, 0, 16) == [0x61, LineFeed];
    assert FgetsRead(w, 2, 16) == [0x62, 0x63, LineFeed];
    assert FgetsRead(w, 3, 16) == [0x63, LineFeed];
    assert FgetsRead(w, 5, 16) == [];
    FgetsForward(w);
    ChunkStartsStep(Fgets(w), |w|, 0, 2);
    ChunkStartsStep(Fgets(w), |w|, 3, 5);
  }
}
