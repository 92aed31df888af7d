/** The receive side of the simulator link (core/client.py, `proc_msg`),
    lifted out of its thread: what one received chunk does to the pending
    text buffer, which objects reach `on_msg_recv`, and what happens to the
    latest telemetry snapshot afterwards. The stateful loop that performs
    these steps is `ProtocolClient.Client.ReceiveChunk`. */
module Framing {
  import opened Wrappers
  import opened PyText
  import opened Json
  import opened Foreign
  import FloatNotation

  /** The result of appending a chunk to the buffer. `pieces` is empty when
      the buffer holds no complete message yet; otherwise it is the
      newline-separated text from the first `{` to the last `}`. */
  datatype Frame = Frame(buffer: string, pieces: seq<string>)

  /** Some `{` occurs strictly before some `}`. */
  predicate HoldsMessage(s: string) {
    exists i, j | 0 <= i < j < |s| :: s[i] == '{' && s[j] == '}'
  }

  /** Appending `data` to the buffer and cutting out the complete messages:
      from the first `{` to the last `}`, split at newlines. The new buffer
      starts at that last `}`. */
  function Reframe(buffer: string, data: string): Frame {
    var b := buffer + data;
    var n0 := Find(b, '{');
    var n1 := RFind(b, '}');
    if n1 >= 0 && n0 >= 0 && n0 < n1 then
      Frame(b[n1..], Split(b[n0..n1 + 1], '\n'))
    else
      Frame(b, [])
  }

  /** Nothing is cut unless a `{` precedes a `}`; until then the buffer just
      accumulates what arrives. */
  lemma ReframeWaits(buffer: string, data: string)
    ensures var f := Reframe(buffer, data);
      (f.pieces == [] <==> !HoldsMessage(buffer + data)) &&
      (f.pieces == [] ==> f.buffer == buffer + data)
  {
    var b := buffer + data;
    var n0 := Find(b, '{');
    var n1 := RFind(b, '}');
    if !(n1 >= 0 && n0 >= 0 && n0 < n1) {
      forall i, j | 0 <= i < j < |b| && b[i] == '{'
        ensures b[j] != '}'
      {
      }
    }
  }

  /** When messages are cut, the new buffer starts at the last `}`, which is
      kept, and holds no other `}`. */
  lemma ReframeKeepsBrace(buffer: string, data: string)
    requires HoldsMessage(buffer + data)
    ensures var f := Reframe(buffer, data);
      |f.buffer| >= 1 && f.buffer[0] == '}' && '}' !in f.buffer[1..] &&
      f.buffer == (buffer + data)[|buffer + data| - |f.buffer|..]
  {
    var b := buffer + data;
    ReframeWaits(buffer, data);
    var n1 := RFind(b, '}');
    forall k | 0 <= k < |b[n1..][1..]|
      ensures b[n1..][1..][k] != '}'
    {
      assert b[n1..][1..][k] == b[n1 + 1 + k];
    }
  }

  /** When messages are cut, the cut is exact: the combined text is a
      `{`-free prefix, then the pieces joined by newlines, which run from a
      `{` to a `}`, then the new buffer after its leading `}`. No text is
      lost, and only that `}` is carried over into the new buffer. */
  lemma ReframeCuts(buffer: string, data: string)
    requires HoldsMessage(buffer + data)
    ensures var f := Reframe(buffer, data);
      var body := Join(f.pieces, "\n");
      |body| >= 2 && body[0] == '{' && body[|body| - 1] == '}' &&
      exists prefix | '{' !in prefix :: buffer + data == prefix + body + f.buffer[1..]
  {
    var b := buffer + data;
    ReframeCutsAt(buffer, data);
    CutBraces(b);
    CutExact(b, Find(b, '{'), RFind(b, '}'), Reframe(buffer, data));
  }

  /** The pieces of a cut hold no newline: with `ReframeCuts`, they are
      exactly the lines of the cut text. */
  lemma ReframeLines(buffer: string, data: string)
    requires HoldsMessage(buffer + data)
    ensures forall p | p in Reframe(buffer, data).pieces :: '\n' !in p
  {
    var b := buffer + data;
    ReframeCutsAt(buffer, data);
    var t := b[Find(b, '{')..RFind(b, '}') + 1];
    SplitPiecesLackSeparator(t, '\n');
    assert Reframe(buffer, data).pieces == Split(t, '\n');
  }

  lemma CutExact(b: string, n0: nat, n1: nat, f: Frame)
    requires n0 < n1 < |b| && b[n0] == '{' && b[n1] == '}'
    requires forall k | 0 <= k < n0 :: b[k] != '{'
    requires f == Frame(b[n1..], Split(b[n0..n1 + 1], '\n'))
    ensures var body := Join(f.pieces, "\n");
      |body| >= 2 && body[0] == '{' && body[|body| - 1] == '}' &&
      exists prefix | '{' !in prefix :: b == prefix + body + f.buffer[1..]
  {
    CutCovers(b, n0, n1);
    var prefix := b[..n0];
    assert '{' !in prefix;
    assert b == prefix + Join(f.pieces, "\n") + f.buffer[1..];
  }

  lemma ReframeCutsAt(buffer: string, data: string)
    requires HoldsMessage(buffer + data)
    ensures var b := buffer + data;
      var n0 := Find(b, '{');
      var n1 := RFind(b, '}');
      0 <= n0 < n1 && Reframe(buffer, data) == Frame(b[n1..], Split(b[n0..n1 + 1], '\n'))
  {
    ReframeWaits(buffer, data);
  }

  /** The braces that delimit a cut, and no `{` before the first. */
  lemma CutBraces(b: string)
    requires 0 <= Find(b, '{') < RFind(b, '}')
    ensures var n0 := Find(b, '{');
      var n1 := RFind(b, '}');
      n1 < |b| && b[n0] == '{' && b[n1] == '}' && forall k | 0 <= k < n0 :: b[k] != '{'
  {
  }

  lemma CutCovers(b: string, n0: nat, n1: nat)
    requires n0 < n1 < |b| && b[n0] == '{' && b[n1] == '}'
    requires forall k | 0 <= k < n0 :: b[k] != '{'
    ensures var body := Join(Split(b[n0..n1 + 1], '\n'), "\n");
      |body| >= 2 && body[0] == '{' && body[|body| - 1] == '}' &&
      '{' !in b[..n0] && b == b[..n0] + body + b[n1..][1..]
  {
    var body := b[n0..n1 + 1];
    JoinSplit(body, '\n');
    assert b == b[..n0] + body + b[n1 + 1..];
    assert b[n1..][1..] == b[n1 + 1..];
  }

  /** Newline framing, as the comment in `proc_msg` describes the stream:
      every newline ends a message. The text up to the last newline is
      split into pieces and the rest waits in the buffer. This is the
      corrected framing of the finding on chunking; the client keeps the
      brace framing of `Reframe`. */
  function LineReframe(buffer: string, data: string): (f: Frame)
    ensures '\n' !in f.buffer
  {
    LineFrame(buffer + data)
  }

  /** Cutting the complete lines out of the text b. */
  function LineFrame(b: string): (f: Frame)
    ensures '\n' !in f.buffer
  {
    var k := RFind(b, '\n');
    if k < 0 then Frame(b, []) else Frame(b[k + 1..], Split(b[..k], '\n'))
  }

  /** Newline framing loses nothing: the text is the pieces joined by
      newlines, the newline that ends the last one, and the new buffer. */
  lemma LineReframeCovers(buffer: string, data: string)
    ensures var f := LineReframe(buffer, data);
      buffer + data == (if f.pieces == [] then "" else Join(f.pieces, "\n") + "\n") + f.buffer
  {
    var b := buffer + data;
    var k := RFind(b, '\n');
    if k >= 0 {
      JoinSplit(b[..k], '\n');
      assert b == b[..k] + "\n" + b[k + 1..];
    }
  }

  /** Newline framing does not depend on how the stream is chunked: two
      chunks in turn give the pieces and the buffer of their concatenation
      in one chunk. */
  lemma LineReframeSplitInvariant(buffer: string, a: string, c: string)
    ensures var f1 := LineReframe(buffer, a);
      var f2 := LineReframe(f1.buffer, c);
      var whole := LineReframe(buffer, a + c);
      f1.pieces + f2.pieces == whole.pieces && f2.buffer == whole.buffer
  {
    var ba := buffer + a;
    assert buffer + (a + c) == ba + c;
    if '\n' !in ba {
      LineFrameNone(ba);
    } else if '\n' !in c {
      LastLine(ba);
      var k := RFind(ba, '\n');
      LineSecondOpen(ba[..k], ba[k + 1..], c);
    } else {
      LastLine(ba);
      LastLine(c);
      var k, kc := RFind(ba, '\n'), RFind(c, '\n');
      LineFrameAt(ba[..k], ba[k + 1..]);
      LineBothCut(ba[k + 1..], c[..kc], c[kc + 1..]);
      LineBothCutWhole(ba[..k], ba[k + 1..], c[..kc], c[kc + 1..]);
    }
  }

  /** The first chunk completes a line, the second does not. */
  lemma LineSecondOpen(x: string, r: string, c: string)
    requires '\n' !in r && '\n' !in c
    ensures LineFrame(x + "\n" + r) == Frame(r, Split(x, '\n'))
    ensures LineFrame(r + c) == Frame(r + c, [])
    ensures LineFrame(x + "\n" + r + c) == Frame(r + c, Split(x, '\n'))
  {
    LineFrameAt(x, r);
    assert '\n' !in r + c;
    LineFrameNone(r + c);
    assert x + "\n" + r + c == x + "\n" + (r + c);
    LineFrameAt(x, r + c);
  }

  /** Both chunks complete a line: the second chunk's pieces start with
      the rest of the first chunk. */
  lemma LineBothCut(r: string, y: string, z: string)
    requires '\n' !in r && '\n' !in z
    ensures LineFrame(r + (y + "\n" + z)) == Frame(z, Split(r + y, '\n'))
  {
    assert r + (y + "\n" + z) == (r + y) + "\n" + z;
    LineFrameAt(r + y, z);
  }

  /** Both chunks complete a line: the whole text is cut at the second
      chunk's last newline. */
  lemma LineBothCutWhole(x: string, r: string, y: string, z: string)
    requires '\n' !in z
    ensures LineFrame(x + "\n" + r + (y + "\n" + z)) == Frame(z, Split(x, '\n') + Split(r + y, '\n'))
  {
    var front := x + "\n" + (r + y);
    assert x + "\n" + r + (y + "\n" + z) == front + "\n" + z;
    LineFrameAt(front, z);
    SplitConcat(x, r + y, '\n');
  }

  /** With newline framing the same stream dispatches the same objects,
      and raises or not, however it is chunked; a raise in the first chunk
      ends the loop before the second. */
  lemma LineDispatchSplitInvariant(buffer: string, a: string, c: string, decode: string -> Option<Object>)
    ensures var f1 := LineReframe(buffer, a);
      var f2 := LineReframe(f1.buffer, c);
      Dispatched(f1.pieces, decode) + (if DispatchRaises(f1.pieces, decode) then [] else Dispatched(f2.pieces, decode)) ==
        Dispatched(LineReframe(buffer, a + c).pieces, decode)
    ensures var f1 := LineReframe(buffer, a);
      var f2 := LineReframe(f1.buffer, c);
      DispatchRaises(f1.pieces, decode) || DispatchRaises(f2.pieces, decode) <==>
        DispatchRaises(LineReframe(buffer, a + c).pieces, decode)
  {
    var f1 := LineReframe(buffer, a);
    LineReframeSplitInvariant(buffer, a, c);
    DispatchedAppend(f1.pieces, LineReframe(f1.buffer, c).pieces, decode);
    DispatchRaisesAppend(f1.pieces, LineReframe(f1.buffer, c).pieces, decode);
  }

  /** Text with a newline is the text before its last newline, that
      newline, and a newline-free rest. */
  lemma LastLine(s: string)
    requires '\n' in s
    ensures var k := RFind(s, '\n');
      0 <= k && s == s[..k] + "\n" + s[k + 1..] && '\n' !in s[k + 1..]
  {
    var k := RFind(s, '\n');
    var t := s[k + 1..];
    forall m | 0 <= m < |t|
      ensures t[m] != '\n'
    {
      assert t[m] == s[k + 1 + m];
    }
  }

  /** Cutting text whose last newline follows p. */
  lemma LineFrameAt(p: string, q: string)
    requires '\n' !in q
    ensures LineFrame(p + "\n" + q) == Frame(q, Split(p, '\n'))
  {
    var s := p + "\n" + q;
    forall m | |p| < m < |s|
      ensures s[m] != '\n'
    {
      assert s[m] == q[m - |p| - 1];
    }
    RFindIs(s, '\n', |p|);
    assert s[..|p|] == p && s[|p| + 1..] == q;
  }

  /** Text without a newline holds no complete line. */
  lemma LineFrameNone(s: string)
    requires '\n' !in s
    ensures LineFrame(s) == Frame(s, [])
  {
    assert RFind(s, '\n') < 0;
  }

  /** One piece as the loop treats it: pieces of at most two characters are
      skipped; the others have their decimal commas repaired and go to the
      parser, which answers None where `json.loads` raises. */
  function Decode(piece: string, loads: string -> Option<Object>): (r: Option<Object>)
    ensures |piece| <= 2 ==> r.None?
  {
    if |piece| <= 2 then None else loads(FloatNotation.Repaired(piece))
  }

  /** The per-piece parser of a client whose `json.loads` is `loads`. The
      batch functions below take any such parser. */
  function Parser(loads: string -> Option<Object>): string -> Option<Object> {
    piece => Decode(piece, loads)
  }

  /** A parse that reaches `on_msg_recv` (it has a `msg_type` key) and
      makes it raise: `"got:" + j['msg_type']` is a TypeError unless the
      kind is a string. */
  predicate Fatal(d: Option<Object>) {
    d.Some? && HasKey(d.value, MsgType) && Kind(d.value).None?
  }

  /** Whether dispatching the batch raises out of the loop. */
  predicate DispatchRaises(pieces: seq<string>, decode: string -> Option<Object>)
    decreases |pieces|
  {
    pieces != [] &&
    (DispatchRaises(pieces[..|pieces| - 1], decode) || Fatal(decode(pieces[|pieces| - 1])))
  }

  /** The objects `on_msg_recv` handles, in order: the pieces that decode
      to an object with a string `msg_type`, up to the first piece whose
      dispatch raises. Pieces that do not parse or lack the key are dropped
      without stopping the loop. */
  function Dispatched(pieces: seq<string>, decode: string -> Option<Object>): (r: seq<Object>)
    ensures |r| <= |pieces|
    ensures forall o | o in r :: Kind(o).Some?
    decreases |pieces|
  {
    if pieces == [] then []
    else
      var front := pieces[..|pieces| - 1];
      if DispatchRaises(front, decode) then Dispatched(front, decode)
      else
        match decode(pieces[|pieces| - 1])
        case Some(o) => if Kind(o).Some? then Dispatched(front, decode) + [o] else Dispatched(front, decode)
        case None => Dispatched(front, decode)
  }

  /** The loop raises exactly when some piece decodes to an object whose
      `msg_type` is there but is not a string. */
  lemma {:induction false} DispatchRaisesExactly(pieces: seq<string>, decode: string -> Option<Object>)
    ensures DispatchRaises(pieces, decode) <==> exists k | 0 <= k < |pieces| :: Fatal(decode(pieces[k]))
    decreases |pieces|
  {
    if pieces != [] {
      var front := pieces[..|pieces| - 1];
      DispatchRaisesExactly(front, decode);
      if exists k | 0 <= k < |front| :: Fatal(decode(front[k])) {
        var k :| 0 <= k < |front| && Fatal(decode(front[k]));
        assert pieces[k] == front[k];
      }
      if exists k | 0 <= k < |pieces| :: Fatal(decode(pieces[k])) {
        var k :| 0 <= k < |pieces| && Fatal(decode(pieces[k]));
        if k < |front| {
          assert front[k] == pieces[k];
        }
      }
    }
  }

  /** The last piece that decoded, with or without a `msg_type` key: the
      value `j` holds after the loop. */
  function LastParsed(pieces: seq<string>, decode: string -> Option<Object>): (r: Option<Object>)
    ensures pieces == [] ==> r.None?
  {
    if pieces == [] then None
    else
      match decode(pieces[|pieces| - 1])
      case Some(o) => Some(o)
      case None => LastParsed(pieces[..|pieces| - 1], decode)
  }

  /** One more piece of a batch that has not raised: its object is handled
      when its kind is a string, it raises when the kind is anything else,
      and it becomes `j` when it parses. */
  lemma DispatchStep(pieces: seq<string>, decode: string -> Option<Object>, i: nat)
    requires i < |pieces| && !DispatchRaises(pieces[..i], decode)
    ensures var d := decode(pieces[i]);
      Dispatched(pieces[..i + 1], decode) ==
        Dispatched(pieces[..i], decode) + (if d.Some? && Kind(d.value).Some? then [d.value] else [])
    ensures DispatchRaises(pieces[..i + 1], decode) == Fatal(decode(pieces[i]))
    ensures LastParsed(pieces[..i + 1], decode) ==
      if decode(pieces[i]).Some? then decode(pieces[i]) else LastParsed(pieces[..i], decode)
  {
    assert pieces[..i + 1][..i] == pieces[..i];
  }

  /** Where the loop leaves off, after the last piece or at the first
      raise, the batch has been dispatched in full. */
  lemma DispatchStops(pieces: seq<string>, decode: string -> Option<Object>, i: nat)
    requires i <= |pieces| && (i == |pieces| || DispatchRaises(pieces[..i], decode))
    ensures Dispatched(pieces, decode) == Dispatched(pieces[..i], decode)
    ensures DispatchRaises(pieces, decode) == DispatchRaises(pieces[..i], decode)
    ensures !DispatchRaises(pieces[..i], decode) ==> LastParsed(pieces, decode) == LastParsed(pieces[..i], decode)
  {
    if i == |pieces| {
      assert pieces[..i] == pieces;
    } else {
      var p, q := pieces[..i], pieces[i..];
      assert p + q == pieces;
      DispatchedAppend(p, q, decode);
      DispatchRaisesAppend(p, q, decode);
    }
  }

  /** A batch raises when either of its parts does. */
  lemma {:induction false} DispatchRaisesAppend(p: seq<string>, q: seq<string>, decode: string -> Option<Object>)
    ensures DispatchRaises(p + q, decode) <==> DispatchRaises(p, decode) || DispatchRaises(q, decode)
    decreases |q|
  {
    if q == [] {
      assert p + q == p;
    } else {
      var q' := q[..|q| - 1];
      DispatchRaisesAppend(p, q', decode);
      assert (p + q)[..|p + q| - 1] == p + q';
      assert (p + q)[|p + q| - 1] == q[|q| - 1];
    }
  }

  /** Dispatching a batch is dispatching its parts one after the other;
      once the first part raises, the second is not reached. */
  lemma {:induction false} DispatchedAppend(p: seq<string>, q: seq<string>, decode: string -> Option<Object>)
    ensures Dispatched(p + q, decode) ==
      Dispatched(p, decode) + (if DispatchRaises(p, decode) then [] else Dispatched(q, decode))
    decreases |q|
  {
    if q == [] {
      assert p + q == p;
    } else {
      var q' := q[..|q| - 1];
      DispatchedAppend(p, q', decode);
      DispatchRaisesAppend(p, q', decode);
      assert (p + q)[..|p + q| - 1] == p + q';
      assert (p + q)[|p + q| - 1] == q[|q| - 1];
    }
  }

  /** An object is handled exactly when it has a string `msg_type` and some
      piece decodes to it with no raise among the pieces before. */
  lemma {:induction false} DispatchedExactly(pieces: seq<string>, decode: string -> Option<Object>, o: Object)
    ensures o in Dispatched(pieces, decode) <==>
      Kind(o).Some? &&
      exists k | 0 <= k < |pieces| :: decode(pieces[k]) == Some(o) && !DispatchRaises(pieces[..k], decode)
  {
    if o in Dispatched(pieces, decode) {
      DispatchedSound(pieces, decode, o);
    }
    if Kind(o).Some? &&
       exists k | 0 <= k < |pieces| :: decode(pieces[k]) == Some(o) && !DispatchRaises(pieces[..k], decode) {
      var k :| 0 <= k < |pieces| && decode(pieces[k]) == Some(o) && !DispatchRaises(pieces[..k], decode);
      DispatchedComplete(pieces, decode, k);
    }
  }

  lemma {:induction false} DispatchedSound(pieces: seq<string>, decode: string -> Option<Object>, o: Object)
    requires o in Dispatched(pieces, decode)
    ensures exists k | 0 <= k < |pieces| :: decode(pieces[k]) == Some(o) && !DispatchRaises(pieces[..k], decode)
    decreases |pieces|
  {
    var front := pieces[..|pieces| - 1];
    if o in Dispatched(front, decode) {
      DispatchedSound(front, decode, o);
      var k :| 0 <= k < |front| && decode(front[k]) == Some(o) && !DispatchRaises(front[..k], decode);
      assert pieces[k] == front[k] && pieces[..k] == front[..k];
    } else {
      assert !DispatchRaises(front, decode) && decode(pieces[|pieces| - 1]) == Some(o);
    }
  }

  lemma {:induction false} DispatchedComplete(pieces: seq<string>, decode: string -> Option<Object>, k: nat)
    requires k < |pieces| && decode(pieces[k]).Some? && Kind(decode(pieces[k]).value).Some?
    requires !DispatchRaises(pieces[..k], decode)
    ensures decode(pieces[k]).value in Dispatched(pieces, decode)
    decreases |pieces|
  {
    var front := pieces[..|pieces| - 1];
    if k < |front| {
      assert front[k] == pieces[k] && front[..k] == pieces[..k];
      DispatchedComplete(front, decode, k);
      DispatchedAppend(front, [pieces[|pieces| - 1]], decode);
      assert front + [pieces[|pieces| - 1]] == pieces;
    } else {
      assert front == pieces[..k];
    }
  }

  /** The parse result that survives a batch is that of its second part,
      unless nothing in the second part parsed. */
  lemma {:induction false} LastParsedAppend(p: seq<string>, q: seq<string>, decode: string -> Option<Object>)
    ensures LastParsed(p + q, decode) ==
      if LastParsed(q, decode).Some? then LastParsed(q, decode) else LastParsed(p, decode)
    decreases |q|
  {
    if q == [] {
      assert p + q == p;
    } else {
      var q' := q[..|q| - 1];
      LastParsedAppend(p, q', decode);
      assert (p + q)[..|p + q| - 1] == p + q';
      assert (p + q)[|p + q| - 1] == q[|q| - 1];
    }
  }

  /** A batch of pieces of at most two characters each neither dispatches
      nor parses anything. */
  lemma {:induction false} ShortPiecesIgnored(pieces: seq<string>, loads: string -> Option<Object>)
    requires forall k | 0 <= k < |pieces| :: |pieces[k]| <= 2
    ensures Dispatched(pieces, Parser(loads)) == [] && LastParsed(pieces, Parser(loads)).None?
    ensures !DispatchRaises(pieces, Parser(loads))
    decreases |pieces|
  {
    if pieces != [] {
      ShortPiecesIgnored(pieces[..|pieces| - 1], loads);
    }
  }

  /** What the end of a batch does to the telemetry snapshot (`img`, `data`). */
  datatype Snapshot = Keep | Store(img: Image, data: Object) | Raise

  /** After the batch: with conversion enabled and a last parsed object `j`,
      a missing `msg_type` raises; a telemetry message has its `image` field
      decoded and becomes the snapshot, and a missing or undecodable image
      raises. Everything else keeps the snapshot. */
  function AfterBatch(j: Option<Object>, convert: bool, decodeImage: Value -> Option<Image>): (s: Snapshot)
    ensures j.None? || !convert ==> s == Keep
    ensures s.Store? ==> j == Some(s.data) && Get(s.data, MsgType) == Some(Str(Telemetry))
    ensures convert && j.Some? && Get(j.value, MsgType) == Some(Str(Telemetry)) && HasKey(j.value, "image") &&
            decodeImage(Get(j.value, "image").value).Some? ==>
              s == Store(decodeImage(Get(j.value, "image").value).value, j.value)
    ensures convert && j.Some? && HasKey(j.value, MsgType) && Get(j.value, MsgType) != Some(Str(Telemetry)) ==>
              s == Keep
  {
    if j.None? || !convert then Keep
    else
      match Get(j.value, MsgType)
      case None => Raise
      case Some(kind) =>
        if kind != Str(Telemetry) then Keep
        else
          match Get(j.value, "image")
          case None => Raise
          case Some(encoded) =>
            match decodeImage(encoded)
            case None => Raise
            case Some(image) => Store(image, j.value)
  }

  /** The batch ends in an exception exactly when conversion is on and the
      last parsed object either has no `msg_type`, or is telemetry whose
      image is missing or does not decode. */
  lemma RaiseExactly(j: Option<Object>, convert: bool, decodeImage: Value -> Option<Image>)
    ensures AfterBatch(j, convert, decodeImage) == Raise <==>
      convert && j.Some? &&
      (!HasKey(j.value, MsgType) ||
       (Get(j.value, MsgType) == Some(Str(Telemetry)) &&
        (!HasKey(j.value, "image") || decodeImage(Get(j.value, "image").value).None?)))
  {
  }

  /** How a batch ends: a raise while dispatching, otherwise the snapshot
      step on the last parsed object. */
  function BatchEnd(pieces: seq<string>, decode: string -> Option<Object>,
                    convert: bool, decodeImage: Value -> Option<Image>): Snapshot
  {
    if DispatchRaises(pieces, decode) then Raise
    else AfterBatch(LastParsed(pieces, decode), convert, decodeImage)
  }

  /** The batch raises exactly when some piece decodes to an object with a
      non-string `msg_type`, or the snapshot step on the last parse raises;
      the snapshot is stored only from a batch whose dispatch did not raise. */
  lemma BatchEndRaises(pieces: seq<string>, decode: string -> Option<Object>,
                       convert: bool, decodeImage: Value -> Option<Image>)
    ensures BatchEnd(pieces, decode, convert, decodeImage) == Raise <==>
      (exists k | 0 <= k < |pieces| :: Fatal(decode(pieces[k]))) ||
      AfterBatch(LastParsed(pieces, decode), convert, decodeImage) == Raise
    ensures BatchEnd(pieces, decode, convert, decodeImage).Store? ==>
      (forall k | 0 <= k < |pieces| :: !Fatal(decode(pieces[k]))) &&
      BatchEnd(pieces, decode, convert, decodeImage) == AfterBatch(LastParsed(pieces, decode), convert, decodeImage)
  {
    DispatchRaisesExactly(pieces, decode);
  }

  /** A snapshot is only ever taken from the last parsed piece of the batch:
      an earlier telemetry message followed by any other parsable piece does
      not update it. */
  lemma {:induction false} SnapshotFromLastParsed(p: seq<string>, q: seq<string>, decode: string -> Option<Object>,
                                                  convert: bool, decodeImage: Value -> Option<Image>)
    requires LastParsed(q, decode).Some?
    ensures AfterBatch(LastParsed(p + q, decode), convert, decodeImage) ==
            AfterBatch(LastParsed(q, decode), convert, decodeImage)
  {
    LastParsedAppend(p, q, decode);
  }
}
