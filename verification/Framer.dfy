// src/proto/u8_prefix.rs: a stream of buffers cut into frames, each with its length in one byte in front.
module Framer {
  import opened Slabs
  import opened Flats
  import opened Blocks
  import opened ByteBufs
  import opened U8s

  // ---- the format ----

  // What is known of the next frame: nothing, or its length.
  type Ahead = Option<nat>

  datatype Parsed = Parsed(frames: seq<seq<byte>>, ahead: Ahead, rest: seq<byte>)

  // The frames in d, and what is left behind the last whole one.
  function Parse(ahead: Ahead, d: seq<byte>): (r: Parsed)
    decreases |d|, if ahead.Some? then 0 else 1
  {
    match ahead
    case None => if d == [] then Parsed([], None, []) else Parse1(d[0], d[1..])
    case Some(n) => Parse1(n, d)
  }

  // The same, for a frame of n bytes.
  function Parse1(n: nat, d: seq<byte>): (r: Parsed)
    decreases |d|, 0
  {
    if |d| < n then Parsed([], Some(n), d)
    else
      var rest := d[n..];
      if rest == [] then Parsed([d[..n]], None, [])
      else
        var p := Parse1(rest[0], rest[1..]);
        p.(frames := [d[..n]] + p.frames)
  }

  lemma ParseFrame(n: nat, d: seq<byte>)
    requires n <= |d|
    ensures var p := Parse(None, d[n..]);
      Parse1(n, d) == p.(frames := [d[..n]] + p.frames)
  {
    assert [d[..n]] + [] == [d[..n]];
  }

  // Bytes that come later are parsed as if they had been there from the start.
  lemma {:induction false} ParseMore(ahead: Ahead, d: seq<byte>, c: seq<byte>)
    ensures var p := Parse(ahead, d); var q := Parse(p.ahead, p.rest + c);
      Parse(ahead, d + c) == q.(frames := p.frames + q.frames)
    decreases |d|, 1
  {
    if ahead == None && d == [] {
      assert [] + c == c;
      assert forall fs: seq<seq<byte>> :: [] + fs == fs;
    } else if ahead == None {
      assert (d + c)[1..] == d[1..] + c;
      ParseMore(Some(d[0]), d[1..], c);
    } else if |d| < ahead.value {
      assert forall fs: seq<seq<byte>> :: [] + fs == fs;
    } else {
      ParseMore2(ahead.value, d, c);
      FrameMore(ahead.value, d, c);
    }
  }

  // If it is so behind the first frame, it is so.
  lemma FrameMore(n: nat, d: seq<byte>, c: seq<byte>)
    requires n <= |d|
    requires var p := Parse(None, d[n..]); var q := Parse(p.ahead, p.rest + c);
      Parse(None, d[n..] + c) == q.(frames := p.frames + q.frames)
    ensures var p := Parse1(n, d); var q := Parse(p.ahead, p.rest + c);
      Parse1(n, d + c) == q.(frames := p.frames + q.frames)
  {
    hide Parse, Parse1;
    var f, e := d[..n], d[n..];
    var p := Parse(None, e);
    var q := Parse(p.ahead, p.rest + c);
    ParseFrame(n, d);
    assert (d + c)[..n] == f && (d + c)[n..] == e + c;
    ParseFrame(n, d + c);
    Regrouped([f], p.frames, q.frames);
  }

  lemma Regrouped(a: seq<seq<byte>>, b: seq<seq<byte>>, c: seq<seq<byte>>)
    ensures a + (b + c) == (a + b) + c
  {
  }

  lemma {:induction false} ParseMore2(n: nat, d: seq<byte>, c: seq<byte>)
    requires n <= |d|
    ensures var p := Parse(None, d[n..]); var q := Parse(p.ahead, p.rest + c);
      Parse(None, d[n..] + c) == q.(frames := p.frames + q.frames)
    decreases |d|, 0
  {
    var e := d[n..];
    if e == [] {
      assert [] + c == c;
      assert forall fs: seq<seq<byte>> :: [] + fs == fs;
    } else {
      assert (e + c)[1..] == e[1..] + c;
      ParseMore(Some(e[0]), e[1..], c);
    }
  }

  // What the format is: a length, and as many bytes, for each frame.
  predicate Fits(frames: seq<seq<byte>>) {
    forall i :: 0 <= i < |frames| ==> |frames[i]| < 256
  }

  function Encoded(frames: seq<seq<byte>>): (r: seq<byte>)
    requires Fits(frames)
  {
    if frames == [] then [] else [|frames[0]|] + frames[0] + Encoded(frames[1..])
  }

  lemma {:induction false} ParseEncoded(frames: seq<seq<byte>>)
    requires Fits(frames)
    ensures Parse(None, Encoded(frames)) == Parsed(frames, None, [])
  {
    if frames != [] {
      var f, e := frames[0], Encoded(frames[1..]);
      assert Encoded(frames)[1..] == f + e;
      ParseFrame(|f|, f + e);
      assert (f + e)[..|f|] == f && (f + e)[|f|..] == e;
      ParseEncoded(frames[1..]);
      assert [f] + frames[1..] == frames;
    }
  }

  // Any bytes are the encoding of the frames parsed, and the beginning of one more.
  lemma {:induction false} EncodedParse(d: seq<byte>)
    ensures var p := Parse(None, d);
      && Fits(p.frames) && (p.ahead == None ==> p.rest == []) && (p.ahead.Some? ==> |p.rest| < p.ahead.value < 256)
      && d == Encoded(p.frames) + (if p.ahead.Some? then [p.ahead.value] else []) + p.rest
    decreases |d|
  {
    if d != [] && d[0] <= |d[1..]| {
      var n, f, e := d[0], d[1..][..d[0]], d[1..][d[0]..];
      ParseFrame(n, d[1..]);
      EncodedParse(e);
      var p, q := Parse(None, d), Parse(None, e);
      assert p == q.(frames := [f] + q.frames);
      EncodedMore(f, q.frames);
      Regroup([n] + f, Encoded(q.frames), if q.ahead.Some? then [q.ahead.value] else [], q.rest);
      assert d == [n] + f + e;
    }
  }

  lemma EncodedMore(f: seq<byte>, fs: seq<seq<byte>>)
    requires |f| < 256 && Fits(fs)
    ensures Fits([f] + fs) && Encoded([f] + fs) == [|f|] + f + Encoded(fs)
  {
    assert ([f] + fs)[1..] == fs;
  }

  lemma Regroup(a: seq<byte>, b: seq<byte>, c: seq<byte>, d: seq<byte>)
    ensures a + (b + c + d) == (a + b) + c + d
  {
  }

  // ---- the stream ----

  datatype State = More(n: nat) | Pending | Done

  // What the inner stream gives when it is polled, and what this one gives.
  datatype Pull = PullLater | Chunk(buf: ByteBuf) | End | PullFailed

  datatype Polled = NotReady | Frame(buf: ByteBuf) | Finished | Failed

  function AheadOf(s: State): (r: Ahead) {
    if s.More? then Some(s.n) else None
  }

  // The frames given so far and those still in the data are those of everything pulled.
  ghost predicate Accounts(given: seq<seq<byte>>, ahead: Ahead, data: seq<byte>, pulled: seq<byte>) {
    var p := Parse(ahead, data);
    Parse(None, pulled) == p.(frames := given + p.frames)
  }

  lemma AccountsMore(given: seq<seq<byte>>, ahead: Ahead, data: seq<byte>, pulled: seq<byte>, c: seq<byte>)
    requires Accounts(given, ahead, data, pulled)
    ensures Accounts(given, ahead, data + c, pulled + c)
  {
    ParseMore(ahead, data, c);
    ParseMore(None, pulled, c);
    var p := Parse(ahead, data);
    var q := Parse(p.ahead, p.rest + c);
    Regrouped(given, p.frames, q.frames);
  }

  // The length of the next frame is read.
  lemma AccountsLength(given: seq<seq<byte>>, data: seq<byte>, n: byte, rest: seq<byte>, pulled: seq<byte>)
    requires Accounts(given, None, data, pulled) && data == [n] + rest
    ensures Accounts(given, Some(n), rest, pulled)
  {
    assert data[1..] == rest;
  }

  // A frame is given.
  lemma AccountsFrame(given: seq<seq<byte>>, n: nat, data: seq<byte>, frame: seq<byte>, rest: seq<byte>,
    pulled: seq<byte>)
    requires Accounts(given, Some(n), data, pulled) && data == frame + rest && |frame| == n
    ensures Accounts(given + [frame], None, rest, pulled)
  {
    assert data[..n] == frame && data[n..] == rest;
    ParseFrame(n, data);
    var p := Parse(None, rest);
    assert given + ([frame] + p.frames) == (given + [frame]) + p.frames;
  }

  lemma NotAllGiven(given: seq<seq<byte>>, ahead: Ahead, data: seq<byte>, pulled: seq<byte>)
    requires Accounts(given, ahead, data, pulled)
    ensures given <= Parse(None, pulled).frames
  {
  }

  // Nothing to give yet.
  lemma Waits(ahead: Ahead, d: seq<byte>)
    requires if ahead.Some? then |d| < ahead.value else d == []
    ensures Parse(ahead, d).frames == []
  {
  }

  lemma SomeBlock(cs: seq<seq<byte>>, idx: nat)
    ensures From(cs, idx) != [] ==> idx < |cs|
  {
  }

  class U8Prefix {
    var state: State
    var data: ByteBuf
    ghost var given: seq<seq<byte>>  // the frames given so far
    ghost var pulled: seq<byte>      // everything pulled so far

    ghost predicate Valid()
      reads this, data, data.Footprint()
    {
      && data.Valid() && data.Tidy()
      && (!state.Done? ==> Accounts(given, AheadOf(state), data.Contents(), pulled))
      && (state.Done? ==> Parse(None, pulled).frames == given)
      && (state.More? ==> |data.Contents()| < state.n)
    }

    constructor ()
      ensures Valid() && fresh(data) && given == [] && pulled == [] && data.regions == []
    {
      state, given, pulled := Pending, [], [];
      data := new ByteBuf.WithGrowth(0);
    }

    // `data.drain_to(n)`, with the two outcomes that the three places in the source have in common.
    method TakeFrame(n: nat) returns (r: Option<ByteBuf>)
      requires data.Valid() && data.Tidy() && Accounts(given, Some(n), data.Contents(), pulled)
      requires n <= |data.Contents()| ==> data.idx < |data.blocks|
      modifies this`given, data
      ensures data.Valid() && data.Tidy()
      ensures r.Some? <==> n <= |old(data.Contents())|
      ensures r.Some? ==>
        fresh(r.value) && r.value.Valid() && r.value.Tidy() && BothApart(r.value.regions, data.regions)
      ensures r.Some? ==> given == old(given) + [r.value.Contents()] && Accounts(given, None, data.Contents(), pulled)
      ensures r.None? ==>
        given == old(given) && data.Contents() == old(data.Contents()) && data.regions == old(data.regions)
    {
      hide Accounts, AllApart, AllWithin, BothApart, From, ReadAway, Parse;
      ghost var d := data.Contents();
      r := data.DrainTo(n);
      if r.Some? {
        AccountsFrame(given, n, d, r.value.Contents(), data.Contents(), pulled);
        given := given + [r.value.Contents()];
      }
    }

    // A chunk that is pulled is nobody else's.
    ghost predicate Fresh(pull: Pull)
      reads this, data, if pull.Chunk? then {pull.buf} else {}, if pull.Chunk? then pull.buf.Footprint() else {}
    {
      pull.Chunk? ==>
        pull.buf.Valid() && pull.buf.Tidy() && pull.buf != data && BothApart(data.regions, pull.buf.regions)
    }

    // What a poll gives, if the frames given before it were `before`.
    ghost predicate Gives(r: Polled, before: seq<seq<byte>>)
      reads this, data, if r.Frame? then {r.buf} else {}, if r.Frame? then r.buf.Footprint() else {}
    {
      match r
      case Frame(buf) =>
        !state.Done? && buf.Valid() && buf.Tidy() && given == before + [buf.Contents()]
          && BothApart(buf.regions, data.regions)
      case NotReady => !state.Done? && given == before && Parse(AheadOf(state), data.Contents()).frames == []
      case Finished => state.Done? && given == before
      case Failed => given == before
    }

    // The rest of a frame is missing.
    method PollMore(n: nat, pull: Pull) returns (r: Polled)
      requires Valid() && state == More(n) && Fresh(pull)
      modifies this, data, if pull.Chunk? then {pull.buf} else {}
      ensures Valid() && Gives(r, old(given)) && data == old(data)
      ensures pulled == old(pulled) + (if pull.Chunk? then old(pull.buf.Contents()) else [])
      ensures pull.Chunk? ==> r.NotReady? || r.Frame?
      ensures !pull.Chunk? ==> r == match pull case PullLater => NotReady case PullFailed => Failed case _ => Finished
      ensures state.Done? <==> pull.End?
    {
      hide Accounts, AllApart, AllWithin, BothApart, From, ReadAway, Parse;
      match pull {
        case PullLater => r := NotReady;
        case PullFailed => r := Failed;
        case End =>
          Waits(AheadOf(state), data.Contents());
          AllGiven(given, state, data.Contents(), pulled);
          state, r := Done, Finished;
        case Chunk(buf) =>
          AccountsMore(given, Some(n), data.Contents(), pulled, buf.Contents());
          pulled := pulled + buf.Contents();
          data.Extend(buf);
          SomeBlock(data.chunks, data.idx);
          var t := TakeFrame(n);
          if t.Some? {
            state, r := Pending, Frame(t.value);
          } else {
            r := NotReady;
          }
      }
      if r.NotReady? { Waits(Some(n), data.Contents()); }
    }

    // Reads the length of the next frame, and takes the frame if it is all there.
    method ReadFrame() returns (len: Option<byte>, t: Option<ByteBuf>)
      requires Valid() && state == Pending
      modifies this`state, this`given, data
      ensures Valid() && !state.Done?
      ensures len.None? ==> t.None? && state == Pending && data.Contents() == [] && given == old(given)
      ensures len.Some? && t.None? ==> state == More(len.value) && given == old(given)
      ensures t.None? ==> data.regions == old(data.regions)
      ensures t.Some? ==> state == Pending && Gives(Frame(t.value), old(given)) && fresh(t.value)
    {
      hide Accounts, AllApart, AllWithin, BothApart, From, ReadAway, Parse;
      ghost var d := data.Contents();
      len, t := None, None;
      var b := ReadByte(data);
      if b.Some? {
        AccountsLength(given, d, b.value, data.Contents(), pulled);
        len := b;
        t := TakeFrame(b.value);
        if t.None? { state := More(b.value); }
      }
    }

    // Nothing is left of the data.
    method PollPending(pull: Pull) returns (r: Polled)
      requires Valid() && state == Pending && data.Contents() == [] && Fresh(pull)
      modifies this, data, if pull.Chunk? then {pull.buf} else {}
      ensures Valid() && Gives(r, old(given))
      ensures pulled == old(pulled) + (if pull.Chunk? then old(pull.buf.Contents()) else [])
      ensures pull.Chunk? ==> r.NotReady? || r.Frame?
      ensures !pull.Chunk? ==> r == match pull case PullLater => NotReady case PullFailed => Failed case _ => Finished
      ensures state.Done? <==> pull.End?
    {
      hide Accounts, AllApart, AllWithin, BothApart, From, ReadAway, Parse;
      match pull {
        case PullLater => r := NotReady;
        case PullFailed => r := Failed;
        case End =>
          Waits(AheadOf(state), data.Contents());
          AllGiven(given, state, data.Contents(), pulled);
          state, r := Done, Finished;
        case Chunk(buf) =>
          AccountsMore(given, None, [], pulled, buf.Contents());
          assert [] + buf.Contents() == buf.Contents();
          pulled := pulled + buf.Contents();
          data := buf;
          var len, t := ReadFrame();
          r := if t.Some? then Frame(t.value) else NotReady;
      }
      if r.NotReady? { Waits(AheadOf(state), data.Contents()); }
    }

    // The inner stream is polled at most once, with `pull` as the outcome; `asked` says whether it is.
    method Poll(pull: Pull) returns (r: Polled, asked: bool)
      requires Valid() && Fresh(pull)
      modifies this, data, if pull.Chunk? then {pull.buf} else {}
      ensures Valid() && Gives(r, old(given))
      ensures pulled == old(pulled) + (if asked && pull.Chunk? then old(pull.buf.Contents()) else [])
      ensures asked <==> !old(state.Done?) && Parse(None, old(pulled)).frames == old(given)
      ensures !asked ==> r.Frame? || old(state.Done?)
      ensures asked && pull.PullLater? ==> r.NotReady?
      ensures r.Failed? <==> asked && pull.PullFailed?
      ensures r.Finished? <==> old(state.Done?) || (asked && pull.End?)
      ensures state.Done? <==> old(state.Done?) || (asked && pull.End?)
      ensures asked && pull.Chunk? ==>
        (r.NotReady? <==> Parse(None, pulled).frames == old(given)) && (r.NotReady? || r.Frame?)
      ensures r.Frame? ==>
        |old(given)| < |Parse(None, pulled).frames| && r.buf.Contents() == Parse(None, pulled).frames[|old(given)|]
      ensures r.NotReady? || r.Finished? ==> Parse(None, pulled).frames == given
    {
      hide Accounts, AllApart, AllWithin, BothApart, From, ReadAway, Parse;
      match state {
        case Done => r, asked := Finished, false;
        case More(n) =>
          Waits(AheadOf(state), data.Contents());
          AllGiven(given, state, data.Contents(), pulled);
          r := PollMore(n, pull);
          asked := true;
        case Pending =>
          var len, t := ReadFrame();
          if t.Some? {
            NotAllGiven(given, AheadOf(state), data.Contents(), pulled);
            return Frame(t.value), false;
          }
          Waits(AheadOf(state), data.Contents());
          AllGiven(given, state, data.Contents(), pulled);
          asked := true;
          if len.Some? {
            r := PollMore(len.value, pull);
          } else {
            r := PollPending(pull);
          }
      }
      if r.NotReady? { AllGiven(given, state, data.Contents(), pulled); }
      if r.Frame? { NotAllGiven(given, AheadOf(state), data.Contents(), pulled); }
    }
  }

  // Once nothing more can be given, the frames given are exactly the whole frames of all bytes pulled, and what is
  // kept is the beginning of the next one.
  lemma AllGiven(given: seq<seq<byte>>, state: State, data: seq<byte>, pulled: seq<byte>)
    requires !state.Done? && Accounts(given, AheadOf(state), data, pulled) && Parse(AheadOf(state), data).frames == []
    ensures Parse(None, pulled).frames == given
    ensures Parse(None, pulled).rest == Parse(AheadOf(state), data).rest
  {
    assert given + [] == given;
  }

  // All the frames of chunks parsed one after the other.
  function Chunked(ahead: Ahead, data: seq<byte>, chunks: seq<seq<byte>>): (r: Parsed)
    decreases |chunks|
  {
    var p := Parse(ahead, data);
    if chunks == [] then p
    else
      var q := Chunked(p.ahead, p.rest + chunks[0], chunks[1..]);
      q.(frames := p.frames + q.frames)
  }

  function Joined(chunks: seq<seq<byte>>): (r: seq<byte>) {
    if chunks == [] then [] else chunks[0] + Joined(chunks[1..])
  }

  // It does not matter which chunks the bytes come in.
  lemma {:induction false} ChunksDoNotMatter(ahead: Ahead, data: seq<byte>, chunks: seq<seq<byte>>)
    ensures Chunked(ahead, data, chunks) == Parse(ahead, data + Joined(chunks))
    decreases |chunks|
  {
    if chunks == [] {
      assert data + [] == data;
    } else {
      var p := Parse(ahead, data);
      ChunksDoNotMatter(p.ahead, p.rest + chunks[0], chunks[1..]);
      assert p.rest + chunks[0] + Joined(chunks[1..]) == p.rest + Joined(chunks);
      ParseMore(ahead, data, Joined(chunks));
    }
  }
}
