/** Validation of write-ahead log frames (sections 4.1 and 4.2 of the SQLite file format). */
module Wal {
  import opened Wrappers
  import opened Bytes
  import opened Control

  const WORD: nat := 0x1_0000_0000

  function Word(bytes: seq<Byte>, at: nat, big: bool): (r: nat)
    requires at + 4 <= |bytes|
    ensures r < WORD
  {
    if big then Big32(bytes, at) else Little32(bytes, at)
  }

  type Sum = s: (nat, nat) | s.0 < WORD && s.1 < WORD witness (0, 0)

  /** One step of the checksum over eight bytes, in 32-bit arithmetic. */
  function Step(pair: seq<Byte>, big: bool, sum: Sum): Sum
    requires |pair| == 8
  {
    var first := (sum.0 + Word(pair, 0, big) + sum.1) % WORD;
    (first, (sum.1 + Word(pair, 4, big) + first) % WORD)
  }

  /** The checksum of whole eight-byte groups, continued from `sum`. */
  function Checksum(bytes: seq<Byte>, big: bool, sum: Sum): Sum
    requires |bytes| % 8 == 0
    decreases |bytes|
  {
    if bytes == [] then sum else Step(bytes[|bytes| - 8..], big, Checksum(bytes[..|bytes| - 8], big, sum))
  }

  lemma GroupsAdd(a: nat, b: nat)
    requires a % 8 == 0 && b % 8 == 0
    ensures (a + b) % 8 == 0
  {
  }

  /** A checksum continued is the checksum of everything. */
  lemma {:induction false} ChecksumContinues(a: seq<Byte>, b: seq<Byte>, big: bool, sum: Sum)
    requires |a| % 8 == 0 && |b| % 8 == 0
    ensures |a + b| % 8 == 0
    ensures Checksum(a + b, big, sum) == Checksum(b, big, Checksum(a, big, sum))
    decreases |b|
  {
    hide Step;
    GroupsAdd(|a|, |b|);
    if b == [] {
      assert a + b == a;
    } else {
      ChecksumContinues(a, b[..|b| - 8], big, sum);
      SplitLast(a, b);
    }
  }

  lemma SplitLast(a: seq<Byte>, b: seq<Byte>)
    requires |b| >= 8
    ensures (a + b)[..|a + b| - 8] == a + b[..|b| - 8]
    ensures (a + b)[|a + b| - 8..] == b[|b| - 8..]
  {
  }

  method ComputeChecksum(bytes: seq<Byte>, big: bool, start: Sum) returns (sum: Sum)
    requires |bytes| % 8 == 0
    ensures sum == Checksum(bytes, big, start)
  {
    sum := start;
    var at := 0;
    while at < |bytes|
      invariant at <= |bytes| && at % 8 == 0
      invariant sum == Checksum(bytes[..at], big, start)
    {
      var next := bytes[..at + 8];
      assert next[..|next| - 8] == bytes[..at] && next[|next| - 8..] == bytes[at..at + 8];
      sum := Step(bytes[at..at + 8], big, sum);
      at := at + 8;
    }
    assert bytes[..at] == bytes;
  }

  // ---------------------------------------------------------------- a log

  predicate PageSizeValid(size: nat) {
    size == 512 || size == 1024 || size == 2048 || size == 4096 || size == 8192 || size == 16384 || size == 32768 || size == 65536
  }

  datatype Header = Header(size: nat, big: bool, sum: Sum, salts: (nat, nat))

  datatype HeaderFault = Truncated | Magic | Version | PageSize | HeaderChecksum

  function HeaderSum(file: seq<Byte>, big: bool): Sum
    requires |file| >= 24
  {
    Checksum(file[..24], big, (0, 0))
  }

  lemma GoodHeader(file: seq<Byte>)
    requires ReadHeader(file).Good?
    ensures var h := ReadHeader(file).header;
      |file| >= 32 && h.size % 8 == 0 && h.sum == Checksum(file[..24], h.big, (0, 0))
  {
    hide Checksum, Big32;
    assert PageSizeValid(ReadHeader(file).header.size);
  }

  /** What the first 32 bytes establish. */
  function ReadHeader(file: seq<Byte>): (r: Result)
  {
    if |file| < 32 then Bad(Truncated)
    else
      var magic, size := Big32(file, 0), Big32(file, 8);
      if magic != 0x377f_0682 && magic != 0x377f_0683 then Bad(Magic)
      else if Big32(file, 4) != 3_007_000 then Bad(Version)
      else if !PageSizeValid(size) then Bad(PageSize)
      else
        var big := magic == 0x377f_0683;
        var sum := HeaderSum(file, big);
        if sum != (Big32(file, 24), Big32(file, 28)) then Bad(HeaderChecksum)
        else Good(Header(size, big, sum, (Big32(file, 16), Big32(file, 20))))
  }

  datatype Result = Good(header: Header) | Bad(fault: HeaderFault)

  function FrameAt(size: nat, n: nat): nat {
    32 + n * (size + 24)
  }

  predicate Whole(file: seq<Byte>, size: nat, n: nat) {
    FrameAt(size, n) + size + 24 <= |file|
  }

  function Frame(file: seq<Byte>, size: nat, n: nat): (r: seq<Byte>)
    requires Whole(file, size, n)
    ensures |r| == size + 24
  {
    file[FrameAt(size, n)..FrameAt(size, n) + size + 24]
  }

  /** The bytes of a frame that its checksum covers: its page number and database size, and
      its page. */
  function Covered(frame: seq<Byte>): seq<Byte>
    requires |frame| >= 24
  {
    frame[..8] + frame[24..]
  }

  /** Everything the checksum of frame `n - 1` covers: the log header and all frames up to it. */
  function Stream(file: seq<Byte>, size: nat, n: nat): seq<Byte>
    requires |file| >= 24 && (n > 0 ==> Whole(file, size, n - 1))
  {
    if n == 0 then file[..24]
    else
      AllWhole(file, size, n);
      Stream(file, size, n - 1) + Covered(Frame(file, size, n - 1))
  }

  lemma NextFrame(size: nat, n: nat)
    ensures FrameAt(size, n + 1) == FrameAt(size, n) + size + 24
  {
    assert (n + 1) * (size + 24) == n * (size + 24) + size + 24;
  }

  lemma AllWhole(file: seq<Byte>, size: nat, n: nat)
    requires n > 0 && Whole(file, size, n - 1)
    ensures n - 1 > 0 ==> Whole(file, size, n - 2)
  {
    if n > 1 {
      NextFrame(size, n - 2);
    }
  }

  lemma {:induction false} StreamGroups(file: seq<Byte>, size: nat, n: nat)
    requires |file| >= 24 && (n > 0 ==> Whole(file, size, n - 1)) && size % 8 == 0
    ensures |Stream(file, size, n)| % 8 == 0
  {
    hide FrameAt;
    if n > 0 {
      AllWhole(file, size, n);
      StreamGroups(file, size, n - 1);
      var covered := Covered(Frame(file, size, n - 1));
      GroupsAdd(|Stream(file, size, n - 1)|, |covered|);
    }
  }

  /** A frame that counts: it is all there, carries the log's salts, names a usable page, and
      its checksum is that of the whole log up to it, computed from scratch. */
  ghost predicate Validated(file: seq<Byte>, h: Header, n: nat)
    requires |file| >= 24 && h.size % 8 == 0
  {
    && Whole(file, h.size, n)
    && var frame := Frame(file, h.size, n);
    && (Big32(frame, 8), Big32(frame, 12)) == h.salts
    && Big32(frame, 0) != 0 && Big32(frame, 0) != WORD - 1 && Big32(frame, 4) != WORD - 1
    && (StreamGroups(file, h.size, n + 1);
        (Big32(frame, 16), Big32(frame, 20)) == Checksum(Stream(file, h.size, n + 1), h.big, (0, 0)))
  }

  datatype FrameFault = FrameTruncated | StaleSalts | FrameChecksum | PageNumber

  /** The checksum of the log through one more frame, from the checksum of the log before it
      and the two parts of the frame. */
  lemma StreamContinues(file: seq<Byte>, h: Header, n: nat, rolling: Sum, first: Sum, last: Sum)
    requires |file| >= 24 && h.size % 8 == 0 && Whole(file, h.size, n) && (n > 0 ==> Whole(file, h.size, n - 1))
    requires |Stream(file, h.size, n)| % 8 == 0 && rolling == Checksum(Stream(file, h.size, n), h.big, (0, 0))
    requires first == Checksum(Frame(file, h.size, n)[..8], h.big, rolling)
    requires last == Checksum(Frame(file, h.size, n)[24..], h.big, first)
    ensures |Stream(file, h.size, n + 1)| % 8 == 0
    ensures last == Checksum(Stream(file, h.size, n + 1), h.big, (0, 0))
  {
    hide Step, Word, FrameAt, Checksum;
    var frame := Frame(file, h.size, n);
    ChecksumContinues(frame[..8], frame[24..], h.big, rolling);
    ChecksumContinues(Stream(file, h.size, n), Covered(frame), h.big, (0, 0));
  }

  /** Reads one frame against the rolling checksum of the frames before it. */
  method ReadFrame(file: seq<Byte>, h: Header, n: nat, rolling: Sum, ghost commit: Option<nat>)
    returns (fault: Option<FrameFault>, sum: Sum, size: nat)
    requires |file| >= 24 && h.size % 8 == 0 && Progress(file, h, n, rolling, commit)
    ensures fault.None? <==> Validated(file, h, n)
    ensures fault.None? ==> Progress(file, h, n + 1, sum, if size != 0 then Some(n + 1) else commit)
  {
    sum, size := rolling, 0;
    hide Step, Word, FrameAt, Checksum, LastCommit, AllValidated;
    if !Whole(file, h.size, n) {
      return Some(FrameTruncated), sum, size;
    }
    var frame := Frame(file, h.size, n);
    if (Big32(frame, 8), Big32(frame, 12)) != h.salts {
      return Some(StaleSalts), sum, size;
    }
    var first := ComputeChecksum(frame[..8], h.big, rolling);
    var candidate := ComputeChecksum(frame[24..], h.big, first);
    StreamContinues(file, h, n, rolling, first, candidate);
    if (Big32(frame, 16), Big32(frame, 20)) != candidate {
      return Some(FrameChecksum), sum, size;
    }
    if Big32(frame, 0) == 0 || Big32(frame, 0) == WORD - 1 || Big32(frame, 4) == WORD - 1 {
      return Some(PageNumber), sum, size;
    }
    sum, size := candidate, Big32(frame, 4);
    OneMore(file, h, n, commit);
    return None, sum, size;
  }

  lemma OneMore(file: seq<Byte>, h: Header, n: nat, commit: Option<nat>)
    requires |file| >= 24 && h.size % 8 == 0 && Validated(file, h, n) && Whole(file, h.size, n)
    requires AllValidated(file, h, n) && LastCommit(file, h, n, commit)
    ensures AllValidated(file, h, n + 1)
    ensures LastCommit(file, h, n + 1, if Big32(Frame(file, h.size, n), 4) != 0 then Some(n + 1) else commit)
  {
    hide Validated, FrameAt, Frame;
  }

  datatype WalEnd = Complete | Faulty(fault: FrameFault) | FrameLimit | Interrupted | AllocationFailure

  /** Frame `n`, counted from 1, ends a transaction: it is valid and carries a database size. */
  ghost predicate Commits(file: seq<Byte>, h: Header, n: nat)
    requires |file| >= 24 && h.size % 8 == 0
  {
    n >= 1 && Whole(file, h.size, n - 1) && Big32(Frame(file, h.size, n - 1), 4) != 0
  }

  /** The last frame among the first `n` that ends a transaction. */
  ghost predicate LastCommit(file: seq<Byte>, h: Header, n: nat, commit: Option<nat>)
    requires |file| >= 24 && h.size % 8 == 0
  {
    && (commit.Some? ==> commit.value <= n && Commits(file, h, commit.value))
    && (forall k :: commit.GetOr(0) < k <= n ==> !Commits(file, h, k))
  }

  /** Reads frames until one is not valid or something stops the reading. The validated frames
      are a prefix of the log; only the end of the file or a frame that does not validate ends
      it, unless a limit, a stop or a refused allocation does. */
  method Inspect(file: seq<Byte>, maxFrames: nat, control: WorkControl)
    returns (header: Result, frames: nat, commit: Option<nat>, end: WalEnd)
    modifies control`stop
    ensures header == ReadHeader(file)
    ensures header.Bad? ==> frames == 0 && commit == None
    ensures header.Good? ==>
      && header.header.size % 8 == 0 && |file| >= 24
      && AllValidated(file, header.header, frames) && LastCommit(file, header.header, frames, commit)
      && Ended(file, header.header, maxFrames, frames, end)
      && (end.Interrupted? ==> control.stop)
  {
    header, frames, commit, end := ReadHeader(file), 0, None, Complete;
    hide ReadHeader, Checksum, Step, Word;
    if header.Good? {
      GoodHeader(file);
      frames, commit, end := ReadFrames(file, header.header, maxFrames, control);
    }
  }

  /** What holds after `n` frames were read and all were valid: `rolling` is the checksum of
      everything up to there, and `commit` the last of them that ends a transaction. */
  ghost predicate Progress(file: seq<Byte>, h: Header, n: nat, rolling: Sum, commit: Option<nat>) {
    && |file| >= 24 && h.size % 8 == 0
    && (n > 0 ==> Whole(file, h.size, n - 1))
    && |Stream(file, h.size, n)| % 8 == 0 && rolling == Checksum(Stream(file, h.size, n), h.big, (0, 0))
    && AllValidated(file, h, n)
    && LastCommit(file, h, n, commit)
  }

  ghost predicate AllValidated(file: seq<Byte>, h: Header, n: nat)
    requires |file| >= 24 && h.size % 8 == 0
  {
    forall k :: 0 <= k < n ==> Validated(file, h, k)
  }

  method ReadFrames(file: seq<Byte>, h: Header, maxFrames: nat, control: WorkControl)
    returns (frames: nat, commit: Option<nat>, end: WalEnd)
    requires |file| >= 24 && h.size % 8 == 0 && h.sum == Checksum(file[..24], h.big, (0, 0))
    modifies control`stop
    ensures AllValidated(file, h, frames) && LastCommit(file, h, frames, commit)
    ensures Ended(file, h, maxFrames, frames, end)
    ensures end.Interrupted? ==> control.stop
  {
    frames, commit, end := 0, None, Complete;
    var rolling, offset, reading := h.sum, 32, true;
    assert Progress(file, h, 0, rolling, None) && offset == FrameAt(h.size, 0);
    hide Progress, FrameAt;
    while reading && offset < |file|
      invariant offset == FrameAt(h.size, frames) && frames <= maxFrames
      invariant Progress(file, h, frames, rolling, commit)
      invariant reading ==> end.Complete?
      invariant !reading ==> Ended(file, h, maxFrames, frames, end)
      invariant end.Interrupted? ==> control.stop
      decreases reading, |file| - offset
    {
      var stopped := control.Stopped();
      var granted: bool := *;
      if stopped {
        end, reading := Interrupted, false;
      } else if frames >= maxFrames {
        end, reading := FrameLimit, false;
      } else if !granted {
        end, reading := AllocationFailure, false;
      } else {
        var fault, sum, size := ReadFrame(file, h, frames, rolling, commit);
        if fault.Some? {
          end, reading := Faulty(fault.value), false;
        } else {
          NextFrame(h.size, frames);
          frames, offset, rolling := frames + 1, offset + h.size + 24, sum;
          commit := if size != 0 then Some(frames) else commit;
        }
      }
    }
    ProgressMeans(file, h, frames, rolling, commit);
  }

  lemma ProgressMeans(file: seq<Byte>, h: Header, n: nat, rolling: Sum, commit: Option<nat>)
    requires |file| >= 24 && h.size % 8 == 0 && Progress(file, h, n, rolling, commit)
    ensures AllValidated(file, h, n) && LastCommit(file, h, n, commit)
  {
  }

  /** Why the reading ended where it did. */
  ghost predicate Ended(file: seq<Byte>, h: Header, maxFrames: nat, frames: nat, end: WalEnd)
    requires |file| >= 24 && h.size % 8 == 0
  {
    && frames <= maxFrames
    && (end.Complete? ==> FrameAt(h.size, frames) >= |file|)
    && (end.Faulty? ==> !Validated(file, h, frames))
    && (end.FrameLimit? ==> frames == maxFrames)
  }

  /** Unless a limit, a stop or a refused allocation cut the reading short, no longer prefix of
      the log is valid. */
  lemma MaximalPrefix(file: seq<Byte>, h: Header, maxFrames: nat, frames: nat, end: WalEnd, m: nat)
    requires |file| >= 24 && h.size % 8 == 0 && Ended(file, h, maxFrames, frames, end)
    requires (end.Complete? || end.Faulty?) && AllValidated(file, h, m)
    ensures m <= frames
  {
    hide FrameAt;
    assert m > frames ==> Validated(file, h, frames);
  }
}
