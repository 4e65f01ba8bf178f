/**
  `coroutines/datastream_parser`: frames between ESC SOF markers, ESC doubled inside, taken from
  a byte stream by a coroutine that is resumed once per byte.
*/
module StreamParser {
  import opened Common

  newtype Byte = x: int | 0 <= x < 256

  type Bytes = seq<Byte>

  const ESC: Byte := 72  // 'H'
  const SOF: Byte := 16

  // ---------- The coroutine ----------

  /** Where Parse is suspended. Only Init and Yielded do not wait at a `co_await byte{}`. */
  datatype State =
    | Init
    | HuntEsc
    | HuntSof
    | InFrame(frame: Bytes)
    | InFrameEsc(frame: Bytes)
    | Yielded(frame: Bytes)

  function Next(s: State, b: Byte): State {
    match s
    case Init => HuntEsc          // the byte that starts the coroutine is not looked at
    case Yielded(_) => HuntEsc    // nor is the one that resumes the co_yield
    case HuntEsc => if b == ESC then HuntSof else HuntEsc
    case HuntSof => if b == SOF then InFrame([]) else HuntEsc
    case InFrame(f) => if b == ESC then InFrameEsc(f) else InFrame(f + [b])
    case InFrameEsc(f) => if b == SOF then Yielded(f) else if b == ESC then InFrame(f + [ESC]) else HuntEsc
  }

  function Emitted(s: State): seq<Bytes> {
    if s.Yielded? then [s.frame] else []
  }

  /** The state after a sequence of bytes, and the frames yielded on the way. */
  ghost function Run(s: State, bytes: Bytes): State {
    if bytes == [] then s else Next(Run(s, bytes[..|bytes| - 1]), bytes[|bytes| - 1])
  }

  ghost function Frames(s: State, bytes: Bytes): seq<Bytes> {
    if bytes == [] then [] else Frames(s, bytes[..|bytes| - 1]) + Emitted(Run(s, bytes))
  }

  lemma OneByte(s: State, bytes: Bytes, b: Byte)
    ensures Run(s, bytes + [b]) == Next(Run(s, bytes), b)
    ensures Frames(s, bytes + [b]) == Frames(s, bytes) + Emitted(Next(Run(s, bytes), b))
  {
    assert (bytes + [b])[..|bytes|] == bytes;
  }

  /** Feeding a stream in two pieces is feeding it in one. */
  lemma {:induction false} Chunks(s: State, a: Bytes, b: Bytes)
    ensures Run(s, a + b) == Run(Run(s, a), b)
    ensures Frames(s, a + b) == Frames(s, a) + Frames(Run(s, a), b)
  {
    if b == [] {
      assert a + b == a;
    } else {
      var n := |b| - 1;
      assert a + b == a + b[..n] + [b[n]];
      OneByte(s, a + b[..n], b[n]);
      Chunks(s, a, b[..n]);
    }
  }

  // ---------- The encoder's side ----------

  ghost function Stuff(f: Bytes): Bytes {
    if f == [] then []
    else Stuff(f[..|f| - 1]) + if f[|f| - 1] == ESC then [ESC, ESC] else [f[|f| - 1]]
  }

  ghost function Encode(f: Bytes): Bytes {
    [ESC, SOF] + Stuff(f) + [ESC, SOF]
  }

  /** Every frame encoded, each with some bytes before it. */
  ghost function Stream(gaps: seq<Bytes>, frames: seq<Bytes>): Bytes
    requires |gaps| == |frames|
  {
    if frames == [] then []
    else
      var n := |frames| - 1;
      Stream(gaps[..n], frames[..n]) + (gaps[n] + Encode(frames[n]))
  }

  lemma StreamSnoc(gaps: seq<Bytes>, frames: seq<Bytes>, gap: Bytes, f: Bytes)
    requires |gaps| == |frames|
    ensures Stream(gaps + [gap], frames + [f]) == Stream(gaps, frames) + (gap + Encode(f))
  {
    assert (gaps + [gap])[..|gaps|] == gaps && (frames + [f])[..|frames|] == frames;
  }

  // ---------- Round trip ----------

  lemma {:induction false} StuffedIsCollected(g: Bytes, f: Bytes)
    ensures Run(InFrame(g), Stuff(f)) == InFrame(g + f)
    ensures Frames(InFrame(g), Stuff(f)) == []
  {
    if f == [] {
      assert g + f == g;
    } else {
      var n := |f| - 1;
      StuffedIsCollected(g, f[..n]);
      assert g + f == g + f[..n] + [f[n]];
      OneMoreCollected(g, g + f[..n], Stuff(f[..n]), f[n]);
    }
  }

  lemma OneMoreCollected(g: Bytes, f: Bytes, stuffed: Bytes, b: Byte)
    requires Run(InFrame(g), stuffed) == InFrame(f) && Frames(InFrame(g), stuffed) == []
    ensures var more := stuffed + if b == ESC then [ESC, ESC] else [b];
            Run(InFrame(g), more) == InFrame(f + [b]) && Frames(InFrame(g), more) == []
  {
    OneByte(InFrame(g), stuffed, b);
    if b == ESC {
      OneByte(InFrame(g), stuffed + [ESC], ESC);
      assert stuffed + [ESC, ESC] == stuffed + [ESC] + [ESC];
    }
  }

  lemma TwoBytes(s: State, a: Byte, b: Byte)
    ensures Run(s, [a, b]) == Next(Next(s, a), b)
    ensures Frames(s, [a, b]) == Emitted(Next(s, a)) + Emitted(Next(Next(s, a), b))
  {
    OneByte(s, [], a);
    OneByte(s, [a], b);
    assert [] + [a] == [a] && [a] + [b] == [a, b];
  }

  /** A block is its opening, its stuffed frame and its trailer, and so is what becomes of it. */
  lemma BlockInParts(s: State, f: Bytes)
    ensures var s1 := Run(s, [ESC, SOF]); var s2 := Run(s1, Stuff(f));
            && Run(s, Encode(f)) == Run(s2, [ESC, SOF])
            && Frames(s, Encode(f)) == Frames(s, [ESC, SOF]) + Frames(s1, Stuff(f)) + Frames(s2, [ESC, SOF])
  {
    Chunks(s, [ESC, SOF], Stuff(f));
    Chunks(s, [ESC, SOF] + Stuff(f), [ESC, SOF]);
  }

  /** From the hunting state an encoded frame is delivered by its last byte and not before. */
  lemma BlockIsDelivered(f: Bytes)
    ensures Run(HuntEsc, Encode(f)) == Yielded(f)
    ensures Frames(HuntEsc, Encode(f)) == [f]
  {
    BlockInParts(HuntEsc, f);
    TwoBytes(HuntEsc, ESC, SOF);
    StuffedIsCollected([], f);
    assert [] + f == f;
    TwoBytes(InFrame(f), ESC, SOF);
  }

  /** The bytes between two frames: at least one, and no ESC but as the first, which is not looked at. */
  predicate Separates(gap: Bytes) {
    gap != [] && ESC !in gap[1..]
  }

  lemma {:induction false} QuietBytes(bytes: Bytes)
    requires ESC !in bytes
    ensures Run(HuntEsc, bytes) == HuntEsc && Frames(HuntEsc, bytes) == []
  {
    if bytes == [] {
    } else {
      var n := |bytes| - 1;
      QuietBytes(bytes[..n]);
      assert bytes == bytes[..n] + [bytes[n]];
      OneByte(HuntEsc, bytes[..n], bytes[n]);
    }
  }

  lemma GapThenBlock(s: State, gap: Bytes, f: Bytes)
    requires (s.Init? || s.Yielded?) && Separates(gap)
    ensures Run(s, gap + Encode(f)) == Yielded(f) && Frames(s, gap + Encode(f)) == [f]
  {
    OneByte(s, [], gap[0]);
    assert [] + [gap[0]] == [gap[0]];
    QuietBytes(gap[1..]);
    Chunks(s, [gap[0]], gap[1..]);
    assert [gap[0]] + gap[1..] == gap;
    Chunks(s, gap, Encode(f));
    BlockIsDelivered(f);
  }

  /** Any first byte, any frames, separated by one byte or more: exactly those frames, in order. */
  lemma {:induction false} RoundTrip(gaps: seq<Bytes>, frames: seq<Bytes>)
    requires |gaps| == |frames|
    requires forall i :: 0 <= i < |gaps| ==> Separates(gaps[i])
    ensures Frames(Init, Stream(gaps, frames)) == frames
    ensures Run(Init, Stream(gaps, frames)) == if frames == [] then Init else Yielded(frames[|frames| - 1])
  {
    if frames == [] {
    } else {
      var n := |frames| - 1;
      RoundTrip(gaps[..n], frames[..n]);
      OneMoreFrame(Stream(gaps[..n], frames[..n]), gaps[n], frames[n]);
      assert frames[..n] + [frames[n]] == frames;
    }
  }

  lemma OneMoreFrame(bytes: Bytes, gap: Bytes, f: Bytes)
    requires (Run(Init, bytes).Init? || Run(Init, bytes).Yielded?) && Separates(gap)
    ensures Run(Init, bytes + (gap + Encode(f))) == Yielded(f)
    ensures Frames(Init, bytes + (gap + Encode(f))) == Frames(Init, bytes) + [f]
  {
    Chunks(Init, bytes, gap + Encode(f));
    GapThenBlock(Run(Init, bytes), gap, f);
  }

  /** One more byte behind the last frame changes nothing. */
  lemma TrailingSeparator(gaps: seq<Bytes>, frames: seq<Bytes>, x: Byte)
    requires |gaps| == |frames|
    requires forall i :: 0 <= i < |gaps| ==> Separates(gaps[i])
    ensures Frames(Init, Stream(gaps, frames) + [x]) == frames && Run(Init, Stream(gaps, frames) + [x]) == HuntEsc
  {
    RoundTrip(gaps, frames);
    OneByte(Init, Stream(gaps, frames), x);
  }

  // ---------- Soundness ----------

  /** The part of the input that the current state has put aside for a frame not yet complete. */
  ghost function Pending(s: State): Bytes {
    match s
    case HuntSof => [ESC]
    case InFrame(f) => [ESC, SOF] + Stuff(f)
    case InFrameEsc(f) => [ESC, SOF] + Stuff(f) + [ESC]
    case _ => []
  }

  /** Input consumed so far: the blocks of the frames yielded, and what has come since. */
  ghost predicate Explains(gaps: seq<Bytes>, gap: Bytes, bytes: Bytes) {
    var frames, s := Frames(Init, bytes), Run(Init, bytes);
    && |gaps| == |frames| && (forall i :: 0 <= i < |gaps| ==> gaps[i] != [])
    && bytes == Stream(gaps, frames) + (gap + Pending(s))
    && (gap == [] <==> s.Init? || s.Yielded?)
  }

  /**
    Each frame yielded stands in the input as one encoded block, in order, the blocks do not
    overlap, at least one byte precedes each, and the last one ends where its frame is yielded.
  */
  lemma {:induction false} Sound(bytes: Bytes) returns (gaps: seq<Bytes>, gap: Bytes)
    ensures Explains(gaps, gap, bytes)
  {
    if bytes == [] {
      gaps, gap := [], [];
    } else {
      var n := |bytes| - 1;
      gaps, gap := Sound(bytes[..n]);
      var s := Run(Init, bytes[..n]);
      assert bytes == bytes[..n] + [bytes[n]];
      if Next(s, bytes[n]).Yielded? {
        SoundAtYield(gaps, gap, bytes[..n], bytes[n]);
        gaps, gap := gaps + [gap], [];
      } else {
        SoundBetween(gaps, gap, bytes[..n], bytes[n]);
        gap := if Keeps(s, bytes[n]) then gap else gap + Pending(s) + [bytes[n]];
      }
    }
  }

  lemma SoundAtYield(gaps: seq<Bytes>, gap: Bytes, bytes: Bytes, b: Byte)
    requires Explains(gaps, gap, bytes) && Next(Run(Init, bytes), b).Yielded?
    ensures Explains(gaps + [gap], [], bytes + [b])
  {
    var s, frames := Run(Init, bytes), Frames(Init, bytes);
    OneByte(Init, bytes, b);
    StuffOne(s, b);
    StreamSnoc(gaps, frames, gap, s.frame);
    calc {
      bytes + [b];
      Stream(gaps, frames) + (gap + Pending(s)) + [b];
      Stream(gaps, frames) + (gap + (Pending(s) + [b]));
      Stream(gaps + [gap], frames + [s.frame]);
    }
    assert bytes + [b] == Stream(gaps + [gap], frames + [s.frame]) + ([] + []);
  }

  lemma SoundBetween(gaps: seq<Bytes>, gap: Bytes, bytes: Bytes, b: Byte)
    requires Explains(gaps, gap, bytes) && !Next(Run(Init, bytes), b).Yielded?
    ensures var s := Run(Init, bytes);
            Explains(gaps, if Keeps(s, b) then gap else gap + Pending(s) + [b], bytes + [b])
  {
    var s, frames := Run(Init, bytes), Frames(Init, bytes);
    OneByte(Init, bytes, b);
    StuffOne(s, b);
    assert frames + [] == frames;
    var past := Stream(gaps, frames);
    assert past + (gap + Pending(s)) + [b] == past + (gap + (Pending(s) + [b])) == past + (gap + Pending(s) + [b] + []);
  }

  /** Whether the byte goes on with what is pending, or with nothing pending may begin a frame. */
  ghost predicate Keeps(s: State, b: Byte) {
    match s
    case HuntEsc => b == ESC
    case HuntSof => b == SOF
    case InFrame(_) => true
    case InFrameEsc(_) => b == ESC
    case _ => false
  }

  lemma StuffOne(s: State, b: Byte)
    ensures Keeps(s, b) ==> Pending(Next(s, b)) == Pending(s) + [b]
    ensures !Keeps(s, b) ==> Pending(Next(s, b)) == []
    ensures Next(s, b).Yielded? ==> s.InFrameEsc? && Pending(s) + [b] == Encode(s.frame)
  {
    if s.InFrame? || s.InFrameEsc? {
      assert (s.frame + [b])[..|s.frame|] == s.frame;
    }
  }

  // ---------- When the round trip holds ----------

  ghost function Total(pieces: seq<Bytes>): nat {
    if pieces == [] then 0 else Total(pieces[..|pieces| - 1]) + |pieces[|pieces| - 1]|
  }

  ghost function Blocks(frames: seq<Bytes>): nat {
    if frames == [] then 0 else Blocks(frames[..|frames| - 1]) + |Encode(frames[|frames| - 1])|
  }

  lemma {:induction false} StreamLength(gaps: seq<Bytes>, frames: seq<Bytes>)
    requires |gaps| == |frames|
    ensures |Stream(gaps, frames)| == Total(gaps) + Blocks(frames)
  {
    if frames == [] {
    } else {
      StreamLength(gaps[..|gaps| - 1], frames[..|frames| - 1]);
    }
  }

  lemma {:induction false} TotalBounds(gaps: seq<Bytes>)
    ensures (forall i :: 0 <= i < |gaps| ==> gaps[i] != []) ==> Total(gaps) >= |gaps|
    ensures (forall i :: 0 <= i < |gaps| ==> |gaps[i]| <= 1) ==>
              && Total(gaps) <= |gaps|
              && (Total(gaps) == |gaps| ==> forall i :: 0 <= i < |gaps| ==> |gaps[i]| == 1)
  {
    if gaps == [] {
    } else {
      var n := |gaps| - 1;
      TotalBounds(gaps[..n]);
      assert forall i :: 0 <= i < n ==> gaps[..n][i] == gaps[i];
    }
  }

  /**
    A sender that puts at most one byte before each encoded frame gets exactly its frames
    through if and only if it leaves out none of those bytes: neither the first byte of the
    stream nor one between two frames.
  */
  lemma RoundTripIff(gaps: seq<Bytes>, frames: seq<Bytes>)
    requires |gaps| == |frames| && forall i :: 0 <= i < |gaps| ==> |gaps[i]| <= 1
    ensures Frames(Init, Stream(gaps, frames)) == frames <==> forall i :: 0 <= i < |gaps| ==> |gaps[i]| == 1
  {
    if forall i :: 0 <= i < |gaps| ==> |gaps[i]| == 1 {
      RoundTrip(gaps, frames);
    }
    if Frames(Init, Stream(gaps, frames)) == frames {
      var bytes := Stream(gaps, frames);
      var gaps', gap := Sound(bytes);
      StreamLength(gaps, frames);
      StreamLength(gaps', frames);
      TotalBounds(gaps);
      TotalBounds(gaps');
    }
  }

  ghost function Escapes(pieces: seq<Bytes>): nat {
    if pieces == [] then 0 else Escapes(pieces[..|pieces| - 1]) + multiset(pieces[|pieces| - 1])[ESC]
  }

  ghost function EscapesOfBlocks(frames: seq<Bytes>): nat {
    if frames == [] then 0
    else EscapesOfBlocks(frames[..|frames| - 1]) + multiset(Encode(frames[|frames| - 1]))[ESC]
  }

  lemma {:induction false} EscapesAddUp(gaps: seq<Bytes>, frames: seq<Bytes>)
    requires |gaps| == |frames|
    ensures multiset(Stream(gaps, frames))[ESC] == Escapes(gaps) + EscapesOfBlocks(frames)
  {
    if frames == [] {
    } else {
      EscapesAddUp(gaps[..|gaps| - 1], frames[..|frames| - 1]);
    }
  }

  lemma {:induction false} NoEscapes(gaps: seq<Bytes>)
    ensures Escapes(gaps) == 0 <==> forall i :: 0 <= i < |gaps| ==> ESC !in gaps[i]
  {
    if gaps == [] {
    } else {
      var n := |gaps| - 1;
      NoEscapes(gaps[..n]);
      assert forall i :: 0 <= i < n ==> gaps[..n][i] == gaps[i];
    }
  }

  lemma EndsInTrailer(gaps: seq<Bytes>, frames: seq<Bytes>)
    requires |gaps| == |frames| && frames != []
    ensures var n := |Stream(gaps, frames)|; n >= 2 && Stream(gaps, frames)[n - 2] == ESC && Stream(gaps, frames)[n - 1] == SOF
  {}

  /** Behind the last trailer there is no other, so streams with quiet tails that agree end alike. */
  lemma SameTails(a: Bytes, t: Bytes, a': Bytes, t': Bytes)
    requires a + t == a' + t' && |a| <= |a'|
    requires |a'| >= 2 && a'[|a'| - 2] == ESC && a'[|a'| - 1] == SOF
    requires |a| >= 1 && a[|a| - 1] == SOF && ESC !in t
    ensures a == a' && t == t'
  {
    var k := |a'| - 2;
    assert (a + t)[k] == ESC;
    assert k < |a|;
    assert (a + t)[|a| - 1] == SOF;
    assert a == (a + t)[..|a|] && a' == (a' + t')[..|a'|];
  }

  lemma SameStreams(gaps: seq<Bytes>, gaps': seq<Bytes>, frames: seq<Bytes>, t: Bytes, t': Bytes)
    requires |gaps| == |gaps'| == |frames| > 0 && Stream(gaps, frames) + t == Stream(gaps', frames) + t'
    requires ESC !in t && ESC !in t'
    ensures Stream(gaps, frames) == Stream(gaps', frames) && t == t'
  {
    var a, a' := Stream(gaps, frames), Stream(gaps', frames);
    EndsInTrailer(gaps, frames);
    EndsInTrailer(gaps', frames);
    if |a| <= |a'| {
      SameTails(a, t, a', t');
    } else {
      SameTails(a', t', a, t);
    }
  }

  /** A stream whose gaps hold no ESC can be cut into these frames and such gaps in one way only. */
  lemma {:induction false} OneWayToCut(gaps: seq<Bytes>, gaps': seq<Bytes>, frames: seq<Bytes>, t: Bytes, t': Bytes)
    requires |gaps| == |gaps'| == |frames| && Stream(gaps, frames) + t == Stream(gaps', frames) + t'
    requires ESC !in t && ESC !in t'
    requires forall i :: 0 <= i < |gaps| ==> ESC !in gaps[i] && ESC !in gaps'[i]
    ensures gaps == gaps' && t == t'
    decreases |frames|
  {
    if frames == [] {
      assert [] + t == t && [] + t' == t';
    } else {
      var n := |frames| - 1;
      SameStreams(gaps, gaps', frames, t, t');
      SameBeforeBlock(Stream(gaps[..n], frames[..n]), gaps[n], Stream(gaps'[..n], frames[..n]), gaps'[n], Encode(frames[n]));
      OneWayToCut(gaps[..n], gaps'[..n], frames[..n], gaps[n], gaps'[n]);
      LastApart(gaps, gaps', n);
    }
  }

  lemma LastApart(gaps: seq<Bytes>, gaps': seq<Bytes>, n: nat)
    requires |gaps| == |gaps'| == n + 1 && gaps[..n] == gaps'[..n] && gaps[n] == gaps'[n]
    ensures gaps == gaps'
  {
    assert gaps == gaps[..n] + [gaps[n]] && gaps' == gaps'[..n] + [gaps'[n]];
  }

  lemma SameBeforeBlock(a: Bytes, g: Bytes, a': Bytes, g': Bytes, block: Bytes)
    requires a + (g + block) == a' + (g' + block)
    ensures a + g == a' + g'
  {
    var n := |a + g|;
    assert a + (g + block) == a + g + block && a' + (g' + block) == a' + g' + block;
    assert (a + g + block)[..n] == a + g && (a' + g' + block)[..n] == a' + g';
  }

  /**
    A sender that puts any number of bytes other than ESC before each encoded frame gets exactly
    its frames through if and only if it puts at least one before each.
  */
  lemma RoundTripIffSeparated(gaps: seq<Bytes>, frames: seq<Bytes>)
    requires |gaps| == |frames| && forall i :: 0 <= i < |gaps| ==> ESC !in gaps[i]
    ensures Frames(Init, Stream(gaps, frames)) == frames <==> forall i :: 0 <= i < |gaps| ==> gaps[i] != []
  {
    if forall i :: 0 <= i < |gaps| ==> gaps[i] != [] {
      RoundTrip(gaps, frames);
    }
    if Frames(Init, Stream(gaps, frames)) == frames {
      var bytes := Stream(gaps, frames);
      var gaps', gap := Sound(bytes);
      SameGaps(gaps, gaps', frames, gap + Pending(Run(Init, bytes)));
    }
  }

  lemma SameGaps(gaps: seq<Bytes>, gaps': seq<Bytes>, frames: seq<Bytes>, tail: Bytes)
    requires |gaps| == |gaps'| == |frames| && forall i :: 0 <= i < |gaps| ==> ESC !in gaps[i]
    requires Stream(gaps, frames) == Stream(gaps', frames) + tail
    ensures gaps == gaps'
  {
    OthersQuiet(gaps, gaps', frames, tail);
    assert Stream(gaps, frames) + [] == Stream(gaps, frames);
    OneWayToCut(gaps, gaps', frames, [], tail);
  }

  lemma OthersQuiet(gaps: seq<Bytes>, gaps': seq<Bytes>, frames: seq<Bytes>, tail: Bytes)
    requires |gaps| == |gaps'| == |frames| && forall i :: 0 <= i < |gaps| ==> ESC !in gaps[i]
    requires Stream(gaps, frames) == Stream(gaps', frames) + tail
    ensures ESC !in tail && forall i :: 0 <= i < |gaps'| ==> ESC !in gaps'[i]
  {
    EscapesAddUp(gaps, frames);
    EscapesAddUp(gaps', frames);
    NoEscapes(gaps);
    NoEscapes(gaps');
    assert multiset(tail)[ESC] == 0;
  }

  lemma {:induction false} StuffedIsSkipped(f: Bytes)
    ensures Run(HuntEsc, Stuff(f)) == HuntEsc && Frames(HuntEsc, Stuff(f)) == []
  {
    if f == [] {
    } else {
      var n := |f| - 1;
      StuffedIsSkipped(f[..n]);
      OneByte(HuntEsc, Stuff(f[..n]), f[n]);
      if f[n] == ESC {
        OneByte(HuntEsc, Stuff(f[..n]) + [ESC], ESC);
        assert Stuff(f) == Stuff(f[..n]) + [ESC] + [ESC];
      }
    }
  }

  lemma BlockIsSkipped(s: State, g: Bytes)
    requires s.Init? || s.Yielded? || s.HuntSof?
    ensures Run(s, Encode(g)) == InFrame([]) && Frames(s, Encode(g)) == []
  {
    BlockInParts(s, g);
    TwoBytes(s, ESC, SOF);
    StuffedIsSkipped(g);
    TwoBytes(HuntEsc, ESC, SOF);
  }

  /** A frame is delivered by its own block, and nothing else with it, from the hunting state only. */
  lemma DeliveredIffHunting(s: State, f: Bytes)
    ensures Run(s, Encode(f)) == Yielded(f) && Frames(s, Encode(f)) == [f] <==> s == HuntEsc
  {
    match s
    case HuntEsc => BlockIsDelivered(f);
    case InFrame(g) => TwoFrames(g, f);
    case InFrameEsc(g) => BlockInsideFrame(g, f);
    case _ => BlockIsSkipped(s, f);
  }

  /** The opening of a block ends a frame that is open. */
  lemma TwoFrames(g: Bytes, f: Bytes)
    ensures Run(InFrame(g), Encode(f)).Yielded? ==> |Frames(InFrame(g), Encode(f))| >= 2
  {
    BlockInParts(InFrame(g), f);
    TwoBytes(InFrame(g), ESC, SOF);
    var s2 := Run(Yielded(g), Stuff(f));
    TwoBytes(s2, ESC, SOF);
  }

  /** Behind a single ESC a whole block is taken for contents. */
  lemma BlockInsideFrame(g: Bytes, f: Bytes)
    ensures Run(InFrameEsc(g), Encode(f)) == Yielded(g + [ESC, SOF] + f)
  {
    BlockInParts(InFrameEsc(g), f);
    TwoBytes(InFrameEsc(g), ESC, SOF);
    assert g + [ESC] + [SOF] == g + [ESC, SOF];
    StuffedIsCollected(g + [ESC, SOF], f);
    TwoBytes(InFrame(g + [ESC, SOF] + f), ESC, SOF);
  }

  // ---------- Any bytes between the frames ----------

  /** From any state: a gap lets the next frame through, alone, if and only if it ends hunting and yields nothing. */
  lemma GapThenBlockIff(s: State, gap: Bytes, f: Bytes)
    ensures Run(s, gap + Encode(f)) == Yielded(f) && Frames(s, gap + Encode(f)) == [f]
       <==> Run(s, gap) == HuntEsc && Frames(s, gap) == []
  {
    Chunks(s, gap, Encode(f));
    match Run(s, gap)
    case HuntEsc => BlockIsDelivered(f);
    case InFrame(g) => TwoFrames(g, f);
    case InFrameEsc(g) => BlockInsideFrame(g, f);
    case _ => BlockIsSkipped(Run(s, gap), f);
  }

  /** What a sender can check of a gap by itself: read from the start it yields nothing and ends hunting. */
  ghost predicate Ready(gap: Bytes) {
    Run(Init, gap) == HuntEsc && Frames(Init, gap) == []
  }

  lemma SeparatesIsReady(gap: Bytes)
    requires Separates(gap)
    ensures Ready(gap)
  {
    OneByte(Init, [], gap[0]);
    assert [] + [gap[0]] == [gap[0]];
    QuietBytes(gap[1..]);
    Chunks(Init, [gap[0]], gap[1..]);
    assert [gap[0]] + gap[1..] == gap;
  }

  /** A gap behind a frame is read like one at the start. */
  lemma AsFromTheStart(s: State, gap: Bytes)
    requires s.Init? || s.Yielded?
    ensures Ready(gap) <==> Run(s, gap) == HuntEsc && Frames(s, gap) == []
  {
    if gap == [] {
    } else {
      assert [gap[0]] + gap[1..] == gap;
      OneByte(s, [], gap[0]);
      OneByte(Init, [], gap[0]);
      assert [] + [gap[0]] == [gap[0]];
      Chunks(s, [gap[0]], gap[1..]);
      Chunks(Init, [gap[0]], gap[1..]);
    }
  }

  /** The first k frames, and nothing else, have been delivered when the k-th block ends. */
  ghost predicate Delivered(gaps: seq<Bytes>, frames: seq<Bytes>, k: nat)
    requires |gaps| == |frames| && k <= |frames|
  {
    var bytes := Stream(gaps[..k], frames[..k]);
    Run(Init, bytes) == (if k == 0 then Init else Yielded(frames[k - 1])) && Frames(Init, bytes) == frames[..k]
  }

  lemma NextFrameIff(bytes: Bytes, gap: Bytes, f: Bytes)
    requires Run(Init, bytes).Init? || Run(Init, bytes).Yielded?
    ensures Run(Init, bytes + (gap + Encode(f))) == Yielded(f)
         && Frames(Init, bytes + (gap + Encode(f))) == Frames(Init, bytes) + [f]
       <==> Ready(gap)
  {
    var s := Run(Init, bytes);
    Chunks(Init, bytes, gap + Encode(f));
    GapThenBlockIff(s, gap, f);
    AsFromTheStart(s, gap);
  }

  lemma NextDeliveredIff(gaps: seq<Bytes>, frames: seq<Bytes>, k: nat)
    requires |gaps| == |frames| && k < |frames| && Delivered(gaps, frames, k)
    ensures Delivered(gaps, frames, k + 1) <==> Ready(gaps[k])
  {
    var bytes := Stream(gaps[..k], frames[..k]);
    NextFrameIff(bytes, gaps[k], frames[k]);
    StreamSnoc(gaps[..k], frames[..k], gaps[k], frames[k]);
    assert gaps[..k + 1] == gaps[..k] + [gaps[k]] && frames[..k + 1] == frames[..k] + [frames[k]];
  }

  lemma {:induction false} StepByStep(d: nat -> bool, r: nat -> bool, n: nat)
    requires d(0) && forall k: nat :: k < n && d(k) ==> (d(k + 1) <==> r(k))
    ensures (forall k: nat :: k <= n ==> d(k)) <==> forall i: nat :: i < n ==> r(i)
  {
    if n == 0 {
    } else {
      StepByStep(d, r, n - 1);
      assert d(n - 1) ==> (d(n - 1 + 1) <==> r(n - 1));
    }
  }

  /**
    Whatever stands between them, each frame is delivered when its own block ends, and nothing
    else is, if and only if every gap is ready.
  */
  lemma OneByOneIffReady(gaps: seq<Bytes>, frames: seq<Bytes>)
    requires |gaps| == |frames|
    ensures (forall k :: 0 <= k <= |frames| ==> Delivered(gaps, frames, k)) <==> forall i :: 0 <= i < |gaps| ==> Ready(gaps[i])
  {
    var n := |frames|;
    var d := (k: nat) => k <= n && Delivered(gaps, frames, k);
    var r := (i: nat) => i < n && Ready(gaps[i]);
    assert gaps[..0] == [] && frames[..0] == [];
    forall k: nat | k < n && d(k) ensures d(k + 1) <==> r(k) {
      NextDeliveredIff(gaps, frames, k);
    }
    StepByStep(d, r, n);
    assert forall k: nat :: k <= n ==> (d(k) <==> Delivered(gaps, frames, k));
    assert forall i: nat :: i < n ==> (r(i) <==> Ready(gaps[i]));
  }

  /** Only delivery by the own block has this condition: a gap may hold the very frame that is then lost. */
  lemma GapMayHoldTheFrame(x: Byte, f: Bytes)
    ensures Frames(Init, Stream([[x] + Encode(f)], [f])) == [f] && !Ready([x] + Encode(f))
  {
    var gap := [x] + Encode(f);
    StreamSnoc([], [], gap, f);
    assert [] + [gap] == [gap] && [] + [f] == [f] && [] + (gap + Encode(f)) == gap + Encode(f);
    BackToBackLosesTheSecond(x, f, f);
    GapThenBlock(Init, [x], f);
  }

  /** A frame sent right behind another is always lost, and its trailer opens an empty frame. */
  lemma BackToBackLosesTheSecond(x: Byte, f: Bytes, g: Bytes)
    ensures Frames(Init, [x] + Encode(f) + Encode(g)) == [f]
    ensures Run(Init, [x] + Encode(f) + Encode(g)) == InFrame([])
  {
    GapThenBlock(Init, [x], f);
    BlockIsSkipped(Yielded(f), g);
    Chunks(Init, [x] + Encode(f), Encode(g));
  }

  // ---------- Resynchronisation ----------

  /** From any state, whatever is half read, three plain bytes restore the parser for the next frame. */
  lemma Resync(s: State, x: Byte, y: Byte, f: Bytes)
    requires x != ESC && x != SOF && y != ESC && y != SOF
    ensures Run(s, [x, ESC, y]) == HuntEsc && Frames(s, [x, ESC, y]) == []
    ensures Frames(s, [x, ESC, y] + Encode(f)) == [f]
  {
    OneByte(s, [], x);
    OneByte(s, [x], ESC);
    OneByte(s, [x, ESC], y);
    assert [] + [x] == [x] && [x] + [ESC] == [x, ESC] && [x, ESC] + [y] == [x, ESC, y];
    Chunks(s, [x, ESC, y], Encode(f));
    BlockIsDelivered(f);
  }

  // ---------- The coroutine as it is written ----------

  /**
    The loops of Parse, resumed once per byte of `input`: every `co_await byte{}` takes the
    next one and the coroutine stays suspended when there is none.
  */
  method Parse(input: Bytes) returns (frames: seq<Bytes>)
    ensures frames == Frames(Init, input)
  {
    frames := [];
    if input == [] {
      return;
    }
    var b, i := Await(input, 0, Init, frames);  // initial_suspend
    while i < |input|
      invariant 1 <= i <= |input| && After(input, i, HuntEsc, frames)
    {
      b, i := Await(input, i, HuntEsc, frames);
      if ESC != b {
        continue;
      }
      if i == |input| { return; }
      b, i := Await(input, i, HuntSof, frames);
      if SOF != b {
        continue;
      }
      var frame := [];
      while true
        invariant 1 <= i <= |input| && After(input, i, InFrame(frame), frames)
        decreases |input| - i
      {
        if i == |input| { return; }
        b, i := Await(input, i, InFrame(frame), frames);
        if ESC == b {
          if i == |input| { return; }
          b, i := Await(input, i, InFrameEsc(frame), frames);
          if SOF == b {
            frames := frames + [frame];  // co_yield
            if i == |input| { return; }
            b, i := Await(input, i, Yielded(frame), frames);  // the byte that resumes it
            break;
          } else if ESC != b {
            break;
          }
        }
        frame := frame + [b];
      }
    }
  }

  /** The first i bytes lead to state s, and have yielded the frames. */
  ghost predicate After(input: Bytes, i: nat, s: State, frames: seq<Bytes>)
    requires i <= |input|
    ensures After(input, i, s, frames) && i == |input| ==> frames == Frames(Init, input)
  {
    assert input[..|input|] == input;
    Run(Init, input[..i]) == s && Frames(Init, input[..i]) == frames
  }

  method Await(input: Bytes, i: nat, ghost s: State, ghost frames: seq<Bytes>) returns (b: Byte, next: nat)
    requires i < |input| && After(input, i, s, frames)
    ensures b == input[i] && next == i + 1
    ensures After(input, next, Next(s, b), frames + Emitted(Next(s, b)))
  {
    b, next := input[i], i + 1;
    OneByte(Init, input[..i], b);
    assert input[..next] == input[..i] + [b];
  }

  // ---------- The generator object ----------

  class Generator {
    // promise_type
    var mValue: Option<Bytes>
    var mLastByte: Byte
    // the suspended coroutine
    var state: State

    constructor ()
      ensures state == Init && mValue == None
    {
      mValue, mLastByte, state := None, 0, Init;
    }

    /** The coroutine never ends, so SendData always resumes it. */
    method SendData(b: Byte)
      modifies this
      ensures state == Next(old(state), b)
      ensures mValue == if state.Yielded? then Some(state.frame) else old(mValue)
    {
      mLastByte := b;
      state := Next(state, mLastByte);
      if state.Yielded? {
        mValue := Some(state.frame);  // yield_value
      }
    }

    /** operator() */
    method Take() returns (r: Option<Bytes>)
      modifies this`mValue
      ensures r == old(mValue) && mValue == None
    {
      r, mValue := mValue, None;
    }

    /** ProcessStream: what it passes to HandleFrame. */
    method ProcessStream(stream: Bytes) returns (handled: seq<Bytes>)
      requires mValue == None
      modifies this
      ensures mValue == None && state == Run(old(state), stream)
      ensures handled == Frames(old(state), stream)
    {
      handled := [];
      for i := 0 to |stream|
        invariant mValue == None && state == Run(old(state), stream[..i])
        invariant handled == Frames(old(state), stream[..i])
      {
        OneByte(old(state), stream[..i], stream[i]);
        assert stream[..i + 1] == stream[..i] + [stream[i]];
        SendData(stream[i]);
        var res := Take();
        if res.Some? {
          handled := handled + [res.value];
        }
      }
      assert stream[..|stream|] == stream;
    }
  }

  // ---------- The shipped streams ----------

  // 'p', ESC, SOF, ESC, "Hello", ESC, SOF, a separator, ESC, SOF
  const FIRST: Bytes := [0x70, 72, 16, 72, 72, 101, 108, 108, 111, 72, 16, 0x7, 72, 16]
  // "World", ESC, SOF and one byte more
  const SECOND: Bytes := [87, 111, 114, 108, 100, 72, 16, 0x99]

  lemma OpensFrame(s: State)
    requires s == HuntEsc
    ensures Run(s, [72, 16]) == InFrame([]) && Frames(s, [72, 16]) == []
  {
    TwoBytes(s, 72, 16);
  }

  lemma Plain(f: Bytes, more: Bytes)
    requires forall k :: 0 <= k < |more| ==> more[k] != 72
    ensures Run(InFrame(f), more) == InFrame(f + more) && Frames(InFrame(f), more) == []
  {
    if more == [] {
      assert f + more == f;
    } else {
      var n := |more| - 1;
      Plain(f, more[..n]);
      OneByte(InFrame(f), more[..n], more[n]);
      assert more == more[..n] + [more[n]] && f + more == f + more[..n] + [more[n]];
    }
  }

  lemma InTurn(s: State, a: Bytes, b: Bytes, s': State, f: seq<Bytes>, t: State, g: seq<Bytes>)
    requires Run(s, a) == s' && Frames(s, a) == f && Run(s', b) == t && Frames(s', b) == g
    ensures Run(s, a + b) == t && Frames(s, a + b) == f + g
  {
    Chunks(s, a, b);
  }

  lemma Closes(f: Bytes)
    ensures Run(InFrame(f), [72, 16]) == Yielded(f) && Frames(InFrame(f), [72, 16]) == [f]
  {
    TwoBytes(InFrame(f), 72, 16);
  }

  // Contents free of 'H' and the trailer.
  lemma Contents(f: Bytes, more: Bytes)
    requires forall k :: 0 <= k < |more| ==> more[k] != 72
    ensures Run(InFrame(f), more + [72, 16]) == Yielded(f + more) && Frames(InFrame(f), more + [72, 16]) == [f + more]
  {
    Plain(f, more);
    Closes(f + more);
    InTurn(InFrame(f), more, [72, 16], InFrame(f + more), [], Yielded(f + more), [f + more]);
  }

  lemma Hello()
    ensures var block := [72, 72] + ([101, 108, 108, 111] + [72, 16]);
            && Run(InFrame([]), block) == Yielded([72, 101, 108, 108, 111])
            && Frames(InFrame([]), block) == [[72, 101, 108, 108, 111]]
  {
    TwoBytes(InFrame([]), 72, 72);
    Contents([72], [101, 108, 108, 111]);
    assert [72 as Byte] + [101, 108, 108, 111] == [72, 101, 108, 108, 111] && [] + [72 as Byte] == [72];
    var f: Bytes := [72, 101, 108, 108, 111];
    InTurn(InFrame([]), [72, 72], [101, 108, 108, 111] + [72, 16], InFrame([72]), [], Yielded(f), [f]);
  }

  // One byte that is not looked at, and an opening.
  lemma Reopens(s: State, x: Byte)
    requires s.Init? || s.Yielded?
    ensures Run(s, [x] + [72, 16]) == InFrame([]) && Frames(s, [x] + [72, 16]) == []
  {
    OneByte(s, [], x);
    assert [] + [x] == [x];
    OpensFrame(HuntEsc);
    InTurn(s, [x], [72, 16], HuntEsc, [], InFrame([]), []);
  }

  /** The first stream holds one frame, "Hello", and opens another. */
  lemma FirstStream()
    ensures Frames(Init, FIRST) == [[72, 101, 108, 108, 111]] && Run(Init, FIRST) == InFrame([])
  {
    var block: Bytes := [72, 72] + ([101, 108, 108, 111] + [72, 16]);
    var f: Bytes := [72, 101, 108, 108, 111];
    Reopens(Init, 0x70);
    Hello();
    InTurn(Init, [0x70] + [72, 16], block, InFrame([]), [], Yielded(f), [f]);
    Reopens(Yielded(f), 0x7);
    InTurn(Init, [0x70] + [72, 16] + block, [0x7] + [72, 16], Yielded(f), [f], InFrame([]), []);
    assert FIRST == [0x70] + [72, 16] + block + ([0x7] + [72, 16]);
  }

  /** The second stream goes on from there: it is the frame "World", and a swallowed byte. */
  lemma SecondStream()
    ensures Frames(InFrame([]), SECOND) == [[87, 111, 114, 108, 100]] && Run(InFrame([]), SECOND) == HuntEsc
  {
    var f: Bytes := [87, 111, 114, 108, 100];
    Contents([], f);
    assert [] + f == f;
    OneByte(Yielded(f), [], 0x99);
    assert [] + [0x99 as Byte] == [0x99];
    InTurn(InFrame([]), f + [72, 16], [0x99], Yielded(f), [f], HuntEsc, []);
    assert SECOND == f + [72, 16] + [0x99];
  }

  /** main: two streams, one generator. */
  method ProcessShipped() returns (first: seq<Bytes>, between: State, second: seq<Bytes>, after: State)
    ensures first == [[72, 101, 108, 108, 111]] && between == InFrame([])
    ensures second == [[87, 111, 114, 108, 100]] && after == HuntEsc
  {
    FirstStream();
    SecondStream();
    var p := new Generator();
    first := p.ProcessStream(FIRST);
    between := p.state;
    second := p.ProcessStream(SECOND);
    after := p.state;
  }
}
