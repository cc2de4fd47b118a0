/** The PCM ring of src/audio_pcm.c: a writer fills frames ahead of a host that
    consumes them at its own pace and reports its position in bytes. */
module AudioPcm {
  import opened Words

  type i16 = x: int | -0x8000 <= x < 0x8000

  /** How far the writer at slot w is ahead of the reader at slot r. */
  lemma InFlight(written: nat, read: nat, n: nat)
    requires n > 0 && read <= written < read + n
    ensures (Slot(written, n) + n - Slot(read, n)) % n == written - read
  {
    SlotAdd(read, written - read, n);
    var r, d := Slot(read, n), written - read;
    if r + d < n {
      assert (r + d + n - r) % n == (d + n) % n;
      ModPlus(d, n);
      SmallMod(d, n);
    } else {
      assert Slot(r + d, n) == r + d - n;
      SmallMod(d, n);
    }
  }

  /** The host's position register counts bytes, possibly inside a frame. */
  lemma FrameOfByte(frame: nat, part: nat, bytesPerFrame: nat)
    requires part < bytesPerFrame
    ensures (frame * bytesPerFrame + part) / bytesPerFrame == frame
  {
    ModUnique(frame * bytesPerFrame + part, bytesPerFrame, frame, part);
  }

  /** audio_pcm_t, and the host on the other side. A frame F is one sample of
      two bytes for each channel. */
  class Pcm<F> {
    const ring: array<F>
    const channels: nat
    var wpFrames: nat
    var running: bool
    var consumed: nat                // the host: frames taken so far
    var part: nat                    // and bytes of the frame it is taking
    ghost var stream: seq<F>       // every frame ever committed
    ghost var heard: seq<F>        // every frame the host took from the ring

    /** Frames committed and not yet consumed sit unharmed in the ring, and one
        slot always stays free. */
    ghost predicate Valid()
      reads this, ring
    {
      && ring.Length > 0 && part < channels * 2
      && consumed <= |stream| < consumed + ring.Length
      && wpFrames == Slot(|stream|, ring.Length)
      && heard == stream[..consumed]
      && forall i :: consumed <= i < |stream| ==> Frame(i) == stream[i]
    }

    /** What the ring holds for position i of the stream. */
    ghost function Frame(i: nat): F
      requires ring.Length > 0
      reads ring
    {
      ring[Slot(i, ring.Length)]
    }

    ghost function Room(): int
      reads this
    {
      ring.Length - 1 - (|stream| - consumed)
    }

    /** audio_pcm_open, over a ring of silence. */
    constructor (frames: nat, channels: nat, silence: F)
      requires frames > 0 && channels > 0
      ensures Valid() && fresh(this) && fresh(ring) && ring.Length == frames && running
      ensures stream == [] && consumed == 0 && this.channels == channels
      ensures forall i :: 0 <= i < frames ==> ring[i] == silence
    {
      ring := new F[frames](_ => silence);
      this.channels := channels;
      wpFrames, running, consumed, part := 0, true, 0, 0;
      stream, heard := [], [];
    }

    /** The host takes the next frame out of the ring, unless it has caught up
        with the writer. */
    method HostTakes(newPart: nat)
      requires Valid() && newPart < channels * 2
      modifies this`consumed, this`heard, this`part
      ensures Valid() && stream == old(stream)
      ensures consumed == if old(consumed) < |stream| then old(consumed) + 1 else old(consumed)
    {
      part := newPart;
      if wpFrames != consumed % ring.Length {
        ghost var n := ring.Length;
        SlotIsMod(consumed, n);
        heard := heard + [ring[consumed % ring.Length]];
        consumed := consumed + 1;
      } else {
        SlotIsMod(consumed, ring.Length);
        if consumed < |stream| { SlotsDiffer(consumed, |stream|, ring.Length); }
      }
    }

    /** The host's position register: bytes from the start of the ring. */
    function Lpib(): nat
      requires ring.Length > 0
      reads this
    {
      consumed % ring.Length * (channels * 2) + part
    }

    /** audio_pcm_position: 0 for a stream that does not run, and otherwise the
        frame the host is at. */
    method Position() returns (frame: nat)
      requires Valid()
      ensures frame == if running then Slot(consumed, ring.Length) else 0
    {
      if !running { return 0; }
      SlotIsMod(consumed, ring.Length);
      var bytesPerFrame := channels * 2;
      var lpib := Lpib();
      FrameOfByte(consumed % ring.Length, part, bytesPerFrame);
      SmallMod(consumed % ring.Length, ring.Length);
      frame := lpib / bytesPerFrame % ring.Length;
    }

    /** audio_pcm_writable says exactly how many frames may be written: none
        when the stream does not run. */
    method Writable() returns (free: nat)
      requires Valid()
      ensures free == if running then Room() else 0
    {
      if !running { return 0; }
      var rd := Position();
      var wp := wpFrames;
      InFlight(|stream|, consumed, ring.Length);
      var inflight := (wp + ring.Length - rd) % ring.Length;
      free := ring.Length - 1 - inflight;
    }

    /** audio_pcm_advance: commit frames the caller has put behind the write
        position. */
    method Advance(frames: nat, ghost data: seq<F>)
      requires Valid() && running && |data| == frames <= Room()
      requires forall i :: |stream| <= i < |stream| + frames ==> Frame(i) == data[i - |stream|]
      modifies this`wpFrames, this`stream
      ensures Valid() && stream == old(stream) + data
    {
      SlotAdd(|stream|, frames, ring.Length);
      SlotIsMod(wpFrames + frames, ring.Length);
      wpFrames := (wpFrames + frames) % ring.Length;
      ghost var w := |stream|;
      stream := stream + data;
      assert forall i :: w <= i < |stream| ==> stream[i] == data[i - w];
    }
  }
}
