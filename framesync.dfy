/** The frame synchronizer: the header scanner that classifies the next
    frame, and the resumable reader of a configuration frame whose length is
    cached across polls. Streams are the bytes received so far with a cursor
    at the first unconsumed one. */
module FrameSync {
  import opened Wire

  /** `peek_status_`: 0, 1 (a target-update header was read) or 2 (a config
      header was read). */
  datatype Pending = NoFrame | UpdateFrame | ConfigFrame

  /** The header the scanner tries, chosen by peeking at the next byte. */
  function HeaderFor(b: byte): (h: seq<byte>)
    ensures h == UpdateHeader || h == ConfigHeader
  {
    if b == UpdateHeader[0] then UpdateHeader else ConfigHeader
  }

  /** The classification recorded when that header matches. */
  function KindFor(b: byte): (p: Pending)
    ensures p != NoFrame
  {
    if b == UpdateHeader[0] then UpdateFrame else ConfigFrame
  }

  /** The index among `i..4` of the first byte of `s[c..c + 4]` that differs
      from the header `h`, or 4 when they all agree. */
  function FirstMismatch(s: seq<byte>, c: nat, h: seq<byte>, i: nat): (m: nat)
    requires c + 4 <= |s| && |h| == 4 && i <= 4
    ensures i <= m <= 4
    ensures m < 4 ==> s[c + m] != h[m]
    // every byte before it agrees with the header
    ensures forall j :: i <= j < m ==> s[c + j] == h[j]
    decreases 4 - i
  {
    if i == 4 then 4
    else if s[c + i] != h[i] then i
    else FirstMismatch(s, c, h, i + 1)
  }

  /** The four bytes of `s` from `i` are the header `h`. */
  predicate HeaderAt(s: seq<byte>, i: nat, h: seq<byte>)
    requires |h| == 4
  {
    i + 4 <= |s| && s[i] == h[0] && s[i + 1] == h[1] && s[i + 2] == h[2] && s[i + 3] == h[3]
  }

  /** No mismatch at all: the header is there. */
  lemma NoMismatch(s: seq<byte>, c: nat, h: seq<byte>)
    requires c + 4 <= |s| && |h| == 4
    requires FirstMismatch(s, c, h, 0) == 4
    ensures HeaderAt(s, c, h)
  {
    assert FirstMismatch(s, c, h, 1) == 4;
    assert FirstMismatch(s, c, h, 2) == 4;
    assert FirstMismatch(s, c, h, 3) == 4;
  }

  /** The scanning loop run from cursor `c` with nothing pending: the cursor
      it stops at and the classification it records. Each attempt reads the
      bytes up to and including the first mismatching one and discards them. */
  function Scan(s: seq<byte>, c: nat): (r: (nat, Pending))
    requires c <= |s|
    ensures c <= r.0 <= |s|
    ensures r.1 == NoFrame ==> |s| - r.0 < 4
    ensures r.1 != NoFrame ==> c + 4 <= r.0
    decreases |s| - c
  {
    if |s| - c < 4 then (c, NoFrame)
    else
      var m := FirstMismatch(s, c, HeaderFor(s[c]), 0);
      if m == 4 then (c + 4, KindFor(s[c]))
      else Scan(s, c + m + 1)
  }

  /** With fewer than four bytes left the scanner consumes nothing and
      reports nothing. */
  lemma ScanNeedsFour(s: seq<byte>, c: nat)
    requires c <= |s| && |s| - c < 4
    ensures Scan(s, c) == (c, NoFrame)
  {
  }

  /** What the scanner stops after is the header it reports: the four bytes
      just consumed are the target-update header or the config header. */
  lemma {:induction false} ScanStopsAfterHeader(s: seq<byte>, c: nat)
    requires c <= |s|
    ensures Scan(s, c).1 == UpdateFrame ==> HeaderAt(s, Scan(s, c).0 - 4, UpdateHeader)
    ensures Scan(s, c).1 == ConfigFrame ==> HeaderAt(s, Scan(s, c).0 - 4, ConfigHeader)
    decreases |s| - c
  {
    if |s| - c >= 4 {
      var h := HeaderFor(s[c]);
      var m := FirstMismatch(s, c, h, 0);
      if m == 4 {
        NoMismatch(s, c, h);
      } else {
        ScanStopsAfterHeader(s, c + m + 1);
      }
    }
  }

  /** A failed attempt: the scanner resumes after the mismatching byte. */
  lemma ScanAfterMismatch(s: seq<byte>, c: nat, m: nat)
    requires c + 4 <= |s| && m == FirstMismatch(s, c, HeaderFor(s[c]), 0) && m < 4
    ensures Scan(s, c) == Scan(s, c + m + 1)
  {
    assert !(|s| - c < 4);
  }

  /** A successful attempt: the scanner stops after the header. */
  lemma ScanAfterMatch(s: seq<byte>, c: nat)
    requires c + 4 <= |s| && FirstMismatch(s, c, HeaderFor(s[c]), 0) == 4
    ensures Scan(s, c) == (c + 4, KindFor(s[c]))
  {
  }

  /** A failed attempt whose first byte already mismatches consumes that
      byte alone. */
  lemma ScanSlidesOne(s: seq<byte>, c: nat)
    requires c + 4 <= |s| && s[c] != UpdateHeader[0] && s[c] != ConfigHeader[0]
    ensures Scan(s, c) == Scan(s, c + 1)
  {
    assert FirstMismatch(s, c, ConfigHeader, 0) == 0;
  }

  /** A header at the cursor is recognised at once. */
  lemma ScanFindsHeader(s: seq<byte>, c: nat, h: seq<byte>)
    requires c + 4 <= |s| && (h == UpdateHeader || h == ConfigHeader) && HeaderAt(s, c, h)
    ensures Scan(s, c) == (c + 4, if h == UpdateHeader then UpdateFrame else ConfigFrame)
  {
    assert HeaderFor(s[c]) == h;
    assert FirstMismatch(s, c, h, 3) == 4;
    assert FirstMismatch(s, c, h, 0) == 4;
  }

  /** No byte of `s[c..n]` can start a header attempt that consumes more
      than itself. */
  predicate Noise(s: seq<byte>, c: nat, n: nat)
    requires c <= n <= |s|
  {
    forall i :: c <= i < n ==> s[i] != UpdateHeader[0] && s[i] != ConfigHeader[0]
  }

  /** Resynchronisation: after noise that holds neither header's first byte,
      the scanner slides one byte at a time and recognises the header that
      follows, consuming exactly the noise and the header. */
  lemma {:induction false} ScanSkipsNoise(s: seq<byte>, c: nat, n: nat, h: seq<byte>)
    requires c <= n && (h == UpdateHeader || h == ConfigHeader) && HeaderAt(s, n, h) && Noise(s, c, n)
    ensures Scan(s, c) == (n + 4, if h == UpdateHeader then UpdateFrame else ConfigFrame)
    decreases n - c
  {
    if c < n {
      ScanSlidesOne(s, c);
      ScanSkipsNoise(s, c + 1, n, h);
    } else {
      ScanFindsHeader(s, c, h);
    }
  }

  /** The discard of a failed attempt can swallow a real header: one stray
      0xAA before a target-update header (and at least three more bytes)
      makes the scanner skip all five bytes, as if the header were not
      there. */
  lemma ScanLosesOverlappedHeader(s: seq<byte>)
    requires |s| >= 8 && s[0] == 0xAA && HeaderAt(s, 1, UpdateHeader)
    ensures Scan(s, 0) == Scan(s, 5)
  {
    ScanFailsAtSecond(s, 0);
    ScanSlidesOne(s, 2);
    ScanSlidesOne(s, 3);
    ScanSlidesOne(s, 4);
  }

  /** An attempt at the target-update header that fails at its second byte
      consumes two bytes. */
  lemma ScanFailsAtSecond(s: seq<byte>, c: nat)
    requires c + 4 <= |s| && s[c] == UpdateHeader[0] && s[c + 1] != UpdateHeader[1]
    ensures Scan(s, c) == Scan(s, c + 2)
  {
    assert FirstMismatch(s, c, UpdateHeader, 0) == 1;
  }

  /** `msg[len..len + 4]` is the config trailer `04 03 02 01`. */
  predicate HasConfigTrailer(msg: seq<byte>, len: nat)
    requires len + 4 <= |msg|
  {
    msg[len] == 0x04 && msg[len + 1] == 0x03 && msg[len + 2] == 0x02 && msg[len + 3] == 0x01
  }

  /** Where one poll of the config-frame reader leaves things: the cursor,
      the classification, the cached length and, once a frame with a good
      trailer is complete, its bytes (payload then trailer). */
  datatype ConfigProgress = ConfigProgress(cursor: nat, pending: Pending, length: nat, delivered: Option<seq<byte>>)

  /** Whether the reader does anything this poll: two bytes to read the
      length from, or a length already cached. */
  predicate ConfigReady(s: seq<byte>, c: nat, len: nat)
    requires c <= |s|
  {
    |s| - c >= 2 || len > 0
  }

  /** The payload length in force: the cached one, or the little-endian
      length read from the next two bytes. */
  function FrameLength(s: seq<byte>, c: nat, len: nat): (n: nat)
    requires c <= |s| && ConfigReady(s, c, len)
    ensures len > 0 ==> n == len
    ensures len == 0 ==> n == Word(s[c], s[c + 1]) && n < 0x1_0000
  {
    if len == 0 then Word(s[c], s[c + 1]) else len
  }

  /** One poll of the config-frame reader, with a config header already
      consumed. The length is read only when none is cached; the frame is
      consumed only when payload and trailer are all there; it is delivered
      only when the trailer is right; completion resets length and
      classification whatever the trailer. */
  function ReadConfig(s: seq<byte>, c: nat, len: nat): (r: ConfigProgress)
    requires c <= |s|
    ensures c <= r.cursor <= |s|
    ensures r.pending == NoFrame || r.pending == ConfigFrame
  {
    if !ConfigReady(s, c, len) then ConfigProgress(c, ConfigFrame, len, None)
    else AwaitFrame(s, if len == 0 then c + 2 else c, FrameLength(s, c, len))
  }

  /** The second half of a poll of the config-frame reader, with the payload
      length `n` known and the payload starting at `start`. */
  function AwaitFrame(s: seq<byte>, start: nat, n: nat): (r: ConfigProgress)
    requires start <= |s|
    ensures start <= r.cursor <= |s|
    // an incomplete frame consumes nothing more and keeps the length cached
    ensures |s| - start < n + 4 ==> r == ConfigProgress(start, ConfigFrame, n, None)
    // a complete one is consumed whole, resets both fields, and is delivered
    // exactly when its trailer is right
    ensures |s| - start >= n + 4 ==>
      r.cursor == start + n + 4 && r.pending == NoFrame && r.length == 0 &&
      (r.delivered.Some? <==> HasConfigTrailer(s[start..start + n + 4], n)) &&
      (r.delivered.Some? ==> r.delivered.value == s[start..start + n + 4])
  {
    if |s| - start >= n + 4 then
      var msg := s[start..start + n + 4];
      ConfigProgress(start + n + 4, NoFrame, 0, if HasConfigTrailer(msg, n) then Some(msg) else None)
    else
      ConfigProgress(start, ConfigFrame, n, None)
  }

  /** What one poll `r` of the config-frame reader does, case by case. */
  lemma ReadConfigCases(s: seq<byte>, c: nat, len: nat, r: ConfigProgress)
    requires c <= |s| && r == ReadConfig(s, c, len)
    // nothing to do: nothing changes
    ensures !ConfigReady(s, c, len) ==> r == ConfigProgress(c, ConfigFrame, len, None)
    // a cached length is neither re-read nor changed while the frame is incomplete
    ensures len > 0 && r.pending == ConfigFrame ==> r == ConfigProgress(c, ConfigFrame, len, None)
    // a length just read is cached
    ensures len == 0 && r.pending == ConfigFrame && ConfigReady(s, c, len) ==>
      r == ConfigProgress(c + 2, ConfigFrame, Word(s[c], s[c + 1]), None)
    // completion consumes the length bytes (if read now), the payload and the trailer
    ensures r.pending == NoFrame ==>
      ConfigReady(s, c, len) && r.length == 0 &&
      r.cursor == c + (if len == 0 then 2 else 0) + FrameLength(s, c, len) + 4
    // what is delivered is the payload and a good trailer, exactly as received
    ensures r.delivered.Some? ==>
      r.pending == NoFrame &&
      var m := r.delivered.value;
      |m| == FrameLength(s, c, len) + 4 && m == s[r.cursor - |m|..r.cursor] &&
      m[|m| - 4..] == ConfigTrailer
    // a complete frame with a good trailer is always delivered
    ensures r.pending == NoFrame && r.delivered.None? ==>
      !HasConfigTrailer(s[r.cursor - FrameLength(s, c, len) - 4..r.cursor], FrameLength(s, c, len))
  {
  }

  /** A command frame read back: for a command shorter than 256 bytes, the
      scanner classifies the frame as a config frame after its header and the
      reader then delivers the command and the trailer in the same poll. */
  lemma FrameReadBack(msg: seq<byte>, rest: seq<byte>)
    requires |msg| < 0x100
    ensures Scan(CommandFrame(msg) + rest, 0) == (4, ConfigFrame)
    ensures ReadConfig(CommandFrame(msg) + rest, 4, 0) ==
      ConfigProgress(|msg| + 10, NoFrame, 0, Some(msg + ConfigTrailer))
  {
    var f := CommandFrame(msg);
    var s := f + rest;
    assert s[..|f|] == f;
    assert s[0] == 0xFD && s[1] == 0xFC && s[2] == 0xFB && s[3] == 0xFA;
    assert FirstMismatch(s, 0, ConfigHeader, 0) == 4;
    assert s[4] == |msg| && s[5] == 0;
    assert s[6..|msg| + 10] == msg + ConfigTrailer by {
      assert f[6..|msg| + 10] == f[6..|msg| + 6] + f[|msg| + 6..];
    }
  }

  /** The zero high length byte loses commands of 256 bytes: the length reads
      back as zero and the command is not delivered. */
  lemma FrameLengthWrapsAt256(msg: seq<byte>, rest: seq<byte>)
    requires |msg| == 0x100
    ensures FrameLength(CommandFrame(msg) + rest, 4, 0) == 0
    ensures ReadConfig(CommandFrame(msg) + rest, 4, 0).delivered != Some(msg + ConfigTrailer)
    // at most its first four bytes come through, as an empty-payload frame,
    // and only when they happen to be the trailer
    ensures ReadConfig(CommandFrame(msg) + rest, 4, 0).delivered.Some? ==>
      ReadConfig(CommandFrame(msg) + rest, 4, 0).delivered == Some(msg[..4]) && HasConfigTrailer(msg, 0)
  {
    var s := CommandFrame(msg) + rest;
    assert s[4] == 0 && s[5] == 0;
    assert s[6..10] == msg[..4] by {
      assert CommandFrame(msg)[6..|msg| + 6] == msg;
      forall k | 0 <= k < 4 ensures s[6 + k] == msg[k] {
        assert s[6 + k] == CommandFrame(msg)[6..|msg| + 6][k];
      }
    }
    ReadConfigCases(s, 4, 0, ReadConfig(s, 4, 0));
  }

  /** A zero length is not cached: zero also means "no length cached", so
      after a frame whose length bytes are `00 00` arrives without its
      trailer, the next poll reads the trailer's first two bytes as the
      length (0x0304) and delivers nothing. */
  lemma ZeroLengthNotCached(s: seq<byte>, c: nat)
    requires |s| == c + 6 && s[c] == 0 && s[c + 1] == 0
    requires s[c + 2] == 0x04 && s[c + 3] == 0x03 && s[c + 4] == 0x02 && s[c + 5] == 0x01
    ensures ReadConfig(s[..c + 2], c, 0) == ConfigProgress(c + 2, ConfigFrame, 0, None)
    ensures ReadConfig(s, c + 2, 0) == ConfigProgress(c + 4, ConfigFrame, 0x0304, None)
  {
  }
}
