/**
 How often the decode loops call the decoder, at most.  Nothing is assumed of the decoder but that it
 stays inside the buffers it is given.
 */
module Termination {
  import opened Basics
  import opened Codec
  import FrameDecoding
  import SingleFrame
  import DecoderPlugin

  ghost function FrameCalls<S(!new)>(d: Decoder<S>, s: S, src: seq<byte>, pos: nat,
                                     out: seq<byte>, capacity: nat, max: nat): nat
    requires Bounded(d) && pos <= |src| && |out| <= max && |out| <= capacity
    decreases |src| - pos + max - |out|
  {
    var (roomy, room) := FrameDecoding.Offer(|out|, capacity, max);
    match FrameDecoding.TurnOf(d.step(s, src[pos..], room), src, pos, out, max)
    case Stop(_) => 1
    case Go(s', pos', out') => 1 + FrameCalls(d, s', src, pos', out', roomy, max)
  }

  /** frame_decompress: at most one call for each byte of input, one for each byte of the bound, and one more. */
  lemma {:induction false} FrameCallsAreBounded<S(!new)>(d: Decoder<S>, s: S, src: seq<byte>, pos: nat,
                                                        out: seq<byte>, capacity: nat, max: nat)
    requires Bounded(d) && pos <= |src| && |out| <= max && |out| <= capacity
    ensures FrameCalls(d, s, src, pos, out, capacity, max) <= |src| - pos + max - |out| + 1
    decreases |src| - pos + max - |out|
  {
    var (roomy, room) := FrameDecoding.Offer(|out|, capacity, max);
    match FrameDecoding.TurnOf(d.step(s, src[pos..], room), src, pos, out, max)
    case Stop(_) =>
    case Go(s', pos', out') => FrameCallsAreBounded(d, s', src, pos', out', roomy, max);
  }

  ghost function ApplyCalls<S(!new)>(d: Decoder<S>, s: S, src: seq<byte>, read: nat, out: seq<byte>, tn: nat): nat
    requires Bounded(d) && read <= |src| && |out| <= tn
    decreases |src| - read + tn - |out|
  {
    var r := d.step(s, SingleFrame.InputWindow(src, read), SingleFrame.OutputWindow(|out|, tn));
    match SingleFrame.NextOf(r, read, |src|, |out|, tn)
    case Halt(_) => 1
    case More(s') => 1 + ApplyCalls(d, s', src, read + r.consumed, out + r.emitted, tn)
  }

  /** zstd_apply: at most one call for each byte of the payload and of the destination, and one more. */
  lemma {:induction false} ApplyCallsAreBounded<S(!new)>(d: Decoder<S>, s: S, src: seq<byte>, read: nat,
                                                        out: seq<byte>, tn: nat)
    requires Bounded(d) && read <= |src| && |out| <= tn
    ensures ApplyCalls(d, s, src, read, out, tn) <= |src| - read + tn - |out| + 1
    decreases |src| - read + tn - |out|
  {
    var r := d.step(s, SingleFrame.InputWindow(src, read), SingleFrame.OutputWindow(|out|, tn));
    match SingleFrame.NextOf(r, read, |src|, |out|, tn)
    case Halt(_) =>
    case More(s') => ApplyCallsAreBounded(d, s', src, read + r.consumed, out + r.emitted, tn);
  }

  ghost function PartCalls<S(!new)>(d: Decoder<S>, p: DecoderPlugin.Plug<S>, got: seq<byte>, want: nat): nat
    requires Bounded(d) && p.InRange() && |got| <= want
    decreases p.stop - p.pos + |p.input| + want - |got|
  {
    if |got| == want || p.finished then 0
    else
      var r := DecoderPlugin.Call(d, p, want - |got|);
      if r.code.Error? || (r.consumed == 0 && r.emitted == []) then 1
      else 1 + PartCalls(d, DecoderPlugin.After(p, r), got + r.emitted, want)
  }

  /** decompress_part: refilling is free, so unread range plus missing output bounds the calls. */
  lemma {:induction false} PartCallsAreBounded<S(!new)>(d: Decoder<S>, p: DecoderPlugin.Plug<S>,
                                                       got: seq<byte>, want: nat)
    requires Bounded(d) && p.InRange() && |got| <= want
    ensures PartCalls(d, p, got, want) <= |p.Unread()| + want - |got|
    decreases p.stop - p.pos + |p.input| + want - |got|
  {
    if |got| < want && !p.finished {
      DecoderPlugin.RefillConserves(p);
      var r := DecoderPlugin.Call(d, p, want - |got|);
      if r.code.Hint? && (r.consumed != 0 || r.emitted != []) {
        PartCallsAreBounded(d, DecoderPlugin.After(p, r), got + r.emitted, want);
      }
    }
  }

  ghost function CloseCalls<S(!new)>(d: Decoder<S>, p: DecoderPlugin.Plug<S>): nat
    requires Bounded(d) && p.InRange()
    decreases p.stop - p.pos + |p.input|, !p.finished
  {
    if p.finished then 0
    else
      var r := DecoderPlugin.Call(d, p, 1);
      if r.code.Error? || r.emitted != [] || (r.code != Hint(0) && r.consumed == 0) then 1
      else 1 + CloseCalls(d, DecoderPlugin.After(p, r))
  }

  /** close: at most one call for each unread byte of the range, and one more. */
  lemma {:induction false} CloseCallsAreBounded<S(!new)>(d: Decoder<S>, p: DecoderPlugin.Plug<S>)
    requires Bounded(d) && p.InRange()
    ensures CloseCalls(d, p) <= |p.Unread()| + 1
    decreases p.stop - p.pos + |p.input|, !p.finished
  {
    if !p.finished {
      DecoderPlugin.RefillConserves(p);
      var r := DecoderPlugin.Call(d, p, 1);
      if r.code.Hint? && r.emitted == [] && (r.code == Hint(0) || r.consumed != 0) {
        CloseCallsAreBounded(d, DecoderPlugin.After(p, r));
      }
    }
  }
}
