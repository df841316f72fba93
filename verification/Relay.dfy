/** The relay around the first message: sending it, detecting early failure, falling back, pumping. */
module Relay {
  import opened Bytes
  import opened Types

  // ---------- Sending an action ----------

  function Flatten(chunks: seq<seq<Byte>>): seq<Byte> {
    if chunks == [] then [] else chunks[0] + Flatten(chunks[1..])
  }

  /** The bytes an action puts on the wire for a payload. */
  function WireForm(action: DesyncAction, original: seq<Byte>): seq<Byte> {
    match action
    case PassThrough => original
    case Replace(data) => data
    case Split(chunks) => Flatten(chunks)
    case InjectBefore(fakes) => Flatten(fakes) + original
  }

  function Take(s: seq<Byte>, n: nat): (t: seq<Byte>)
    ensures t <= s && |t| == Min(n, |s|)
  {
    s[..Min(n, |s|)]
  }

  /** A connection to write on; it accepts `room` more bytes before writing fails. */
  class Stream {
    var sent: seq<Byte>
    var room: nat

    constructor (room: nat)
      ensures sent == [] && this.room == room
    {
      sent := [];
      this.room := room;
    }

    method WriteAll(data: seq<Byte>) returns (ok: bool)
      modifies this
      ensures ok <==> |data| <= old(room)
      ensures sent == old(sent) + Take(data, old(room)) && room == old(room) - Min(old(room), |data|)
    {
      ok := |data| <= room;
      sent := sent + Take(data, room);
      room := room - Min(room, |data|);
    }

    method WriteChunks(chunks: seq<seq<Byte>>) returns (ok: bool)
      modifies this
      ensures ok <==> |Flatten(chunks)| <= old(room)
      ensures sent == old(sent) + Take(Flatten(chunks), old(room))
      ensures room == old(room) - Min(old(room), |Flatten(chunks)|)
    {
      var i := 0;
      ok := true;
      assert chunks[0..] == chunks && sent == sent + [];
      while i < |chunks|
        invariant 0 <= i <= |chunks|
        invariant |Flatten(chunks[..i])| <= old(room) && room == old(room) - |Flatten(chunks[..i])|
        invariant sent == old(sent) + Flatten(chunks[..i])
      {
        FlattenSnoc(chunks, i);
        FlattenPrefix(chunks, i + 1);
        ok := WriteAll(chunks[i]);
        TakeAppend(Flatten(chunks[..i]), chunks[i], old(room));
        Assoc(old(sent), Flatten(chunks[..i]), Take(chunks[i], old(room) - |Flatten(chunks[..i])|));
        if !ok {
          return;
        }
        i := i + 1;
      }
      assert chunks[..i] == chunks;
    }

    /** Errors end the sending at once, part of the bytes sent. */
    method ExecuteAction(action: DesyncAction, original: seq<Byte>) returns (ok: bool)
      modifies this
      ensures ok <==> |WireForm(action, original)| <= old(room)
      ensures sent == old(sent) + Take(WireForm(action, original), old(room))
    {
      match action {
        case PassThrough =>
          ok := WriteAll(original);
        case Replace(data) =>
          ok := WriteAll(data);
        case Split(chunks) =>
          ok := WriteChunks(chunks);
        case InjectBefore(fakes) =>
          TakeAppend(Flatten(fakes), original, room);
          ok := WriteChunks(fakes);
          if ok {
            Assoc(old(sent), Flatten(fakes), Take(original, old(room) - |Flatten(fakes)|));
            ok := WriteAll(original);
          }
      }
    }
  }

  lemma {:induction false} FlattenSnoc(chunks: seq<seq<Byte>>, i: nat)
    requires i < |chunks|
    ensures Flatten(chunks[..i + 1]) == Flatten(chunks[..i]) + chunks[i]
    decreases i
  {
    if i == 0 {
      assert chunks[..1] == [chunks[0]] && chunks[..1][1..] == [] && chunks[..0] == [];
      assert Flatten([]) + chunks[0] == chunks[0] == chunks[0] + [];
    } else {
      var rest := chunks[1..];
      FlattenSnoc(rest, i - 1);
      assert chunks[..i + 1][1..] == rest[..i] && chunks[..i][1..] == rest[..i - 1];
      Assoc(chunks[0], Flatten(rest[..i - 1]), rest[i - 1]);
    }
  }

  lemma {:induction false} FlattenPrefix(chunks: seq<seq<Byte>>, i: nat)
    requires i <= |chunks|
    ensures Flatten(chunks[..i]) <= Flatten(chunks)
    decreases |chunks| - i
  {
    if i == |chunks| {
      assert chunks[..i] == chunks;
    } else {
      FlattenSnoc(chunks, i);
      FlattenPrefix(chunks, i + 1);
    }
  }

  lemma {:induction false} FlattenJoined(a: seq<seq<Byte>>, b: seq<seq<Byte>>)
    ensures Flatten(a + b) == Flatten(a) + Flatten(b)
  {
    if a == [] {
      assert a + b == b;
    } else {
      assert (a + b)[1..] == a[1..] + b;
      FlattenJoined(a[1..], b);
      Assoc(a[0], Flatten(a[1..]), Flatten(b));
    }
  }

  lemma ChunkInPlace(front: seq<seq<Byte>>, c: seq<Byte>, back: seq<seq<Byte>>)
    ensures Flatten(front + ([c] + back)) == Flatten(front) + (c + Flatten(back))
  {
    FlattenJoined(front, [c] + back);
    assert ([c] + back)[1..] == back;
  }

  /**
   * What goes out: every chunk and every fake behind those in front of it in the list, and the payload behind
   * the last fake.
   */
  lemma WireOrder(front: seq<seq<Byte>>, c: seq<Byte>, back: seq<seq<Byte>>, original: seq<Byte>)
    ensures WireForm(PassThrough, original) == original && WireForm(Replace(c), original) == c
    ensures WireForm(Split([]), original) == [] && WireForm(InjectBefore([]), original) == original
    ensures WireForm(Split(front + ([c] + back)), original)
            == WireForm(Split(front), original) + (c + WireForm(Split(back), original))
    ensures WireForm(InjectBefore(front + ([c] + back)), original)
            == WireForm(Split(front), original) + (c + WireForm(InjectBefore(back), original))
  {
    ChunkInPlace(front, c, back);
    Assoc(Flatten(front), c + Flatten(back), original);
    Assoc(c, Flatten(back), original);
  }

  lemma TakeAppend(a: seq<Byte>, b: seq<Byte>, n: nat)
    ensures |a| > n ==> Take(a + b, n) == Take(a, n)
    ensures |a| <= n ==> Take(a + b, n) == a + Take(b, n - |a|) && Take(a, n) == a
  {
  }
}
