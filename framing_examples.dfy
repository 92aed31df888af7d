/** Worked streams for the receive framing of `proc_msg`: the brace framing
    of `Framing.Reframe` gives different messages for the same bytes
    depending on where the socket splits them, which the newline framing of
    `Framing.LineReframe` does not. */
module FramingExamples {
  import opened Wrappers
  import opened PyText
  import opened Json
  import opened Framing

  /** Text that starts with `{`, ends with `}` and has no newline, as one
      serialised JSON object on the wire. */
  predicate OneLine(s: string) {
    |s| >= 2 && s[0] == '{' && s[|s| - 1] == '}' && '\n' !in s
  }

  /** A cut whose text between the first `{` and the last `}` holds no
      newline yields that text as its only piece. */
  lemma SinglePiece(buffer: string, data: string, n0: nat, n1: nat)
    requires n0 == Find(buffer + data, '{') && n1 == RFind(buffer + data, '}') && n0 < n1
    requires '\n' !in (buffer + data)[n0..n1 + 1]
    ensures var b := buffer + data;
      Reframe(buffer, data) == Frame(b[n1..], [b[n0..n1 + 1]])
  {
    SplitNoSeparator((buffer + data)[n0..n1 + 1], '\n');
  }

  /** Two objects back to back in one chunk form a single piece; arriving as
      two chunks they form one piece each. */
  lemma BackToBackPieces(a: string, b: string)
    requires OneLine(a) && OneLine(b)
    ensures Reframe("", a + b) == Frame("}", [a + b])
    ensures Reframe("", a) == Frame("}", [a])
    ensures Reframe("}", b) == Frame("}", [b])
  {
    BackToBackOneChunk(a, b);
    WholeObject(a);
    SecondChunk(b);
  }

  lemma BackToBackOneChunk(a: string, b: string)
    requires OneLine(a) && OneLine(b)
    ensures Reframe("", a + b) == Frame("}", [a + b])
  {
    var ab := a + b;
    assert ab[0] == a[0] && ab[|ab| - 1] == b[|b| - 1];
    assert '\n' !in ab;
    WholeObject(ab);
  }

  /** One object alone in a chunk, after an empty buffer. */
  lemma WholeObject(a: string)
    requires OneLine(a)
    ensures Reframe("", a) == Frame("}", [a])
  {
    assert "" + a == a;
    FindIs(a, '{', 0);
    RFindIs(a, '}', |a| - 1);
    assert a[0..|a|] == a && a[|a| - 1..] == "}";
    SinglePiece("", a, 0, |a| - 1);
  }

  /** One object in a chunk, after a buffer holding the previous `}`. */
  lemma SecondChunk(b: string)
    requires OneLine(b)
    ensures Reframe("}", b) == Frame("}", [b])
  {
    var next := "}" + b;
    FindIs(next, '{', 1);
    RFindIs(next, '}', |next| - 1);
    assert next[1..|next|] == b && next[|next| - 1..] == "}";
    SinglePiece("}", b, 1, |next| - 1);
  }

  /** The same bytes dispatch nothing in one chunk and both objects in two,
      for a parser that, like `json.loads`, rejects two objects back to back
      ("Extra data") and accepts each one alone. */
  lemma BackToBackDispatch(a: string, b: string, decode: string -> Option<Object>, oa: Object, ob: Object)
    requires OneLine(a) && OneLine(b)
    requires decode(a + b).None?
    requires decode(a) == Some(oa) && Kind(oa).Some?
    requires decode(b) == Some(ob) && Kind(ob).Some?
    ensures Dispatched(Reframe("", a + b).pieces, decode) == []
    ensures var f1 := Reframe("", a);
      !DispatchRaises(f1.pieces, decode) &&
      Dispatched(f1.pieces, decode) + Dispatched(Reframe(f1.buffer, b).pieces, decode) == [oa, ob]
  {
    BackToBackOneChunk(a, b);
    DispatchedOne(a + b, decode);
    TwoChunksDispatch(a, b, decode, oa, ob);
  }

  lemma TwoChunksDispatch(a: string, b: string, decode: string -> Option<Object>, oa: Object, ob: Object)
    requires OneLine(a) && OneLine(b)
    requires decode(a) == Some(oa) && Kind(oa).Some?
    requires decode(b) == Some(ob) && Kind(ob).Some?
    ensures var f1 := Reframe("", a);
      !DispatchRaises(f1.pieces, decode) &&
      Dispatched(f1.pieces, decode) + Dispatched(Reframe(f1.buffer, b).pieces, decode) == [oa, ob]
  {
    WholeObject(a);
    SecondChunk(b);
    DispatchedOne(a, decode);
    DispatchedOne(b, decode);
  }

  /** A batch of one piece dispatches its object when it decodes to one
      with a string `msg_type`, and nothing otherwise; it raises exactly
      when that key holds something else. */
  lemma DispatchedOne(piece: string, decode: string -> Option<Object>)
    ensures Dispatched([piece], decode) ==
      match decode(piece)
      case Some(o) => if Kind(o).Some? then [o] else []
      case None => []
    ensures DispatchRaises([piece], decode) == Fatal(decode(piece))
  {
    assert [piece][..0] == [];
  }

  /** A message that ends in a nested object: `head` runs up to the `}` of
      the inner object, and the message is `head` followed by its own
      closing `}`. In one newline-terminated chunk it forms one piece. When
      the socket splits it just before its last `}`, the first chunk yields
      `head` as a piece and keeps only the inner `}`; the second chunk then
      finds no `{`, so the message never forms a piece. */
  lemma NestedSplitPieces(head: string)
    requires OneLine(head)
    ensures Reframe("", head + "}\n") == Frame("}\n", [head + "}"])
    ensures Reframe("", head) == Frame("}", [head])
    ensures Reframe("}", "}\n") == Frame("}}\n", [])
  {
    NestedOneChunk(head);
    WholeObject(head);
    assert Find("}" + "}\n", '{') == -1;
  }

  lemma NestedOneChunk(head: string)
    requires OneLine(head)
    ensures Reframe("", head + "}\n") == Frame("}\n", [head + "}"])
  {
    var whole := head + "}\n";
    NestedBraces(head);
    SinglePiece("", whole, 0, |head|);
  }

  /** The first `{` and the last `}` of the nested text, and the cut they
      make, seen from an empty buffer. */
  lemma NestedBraces(head: string)
    requires OneLine(head)
    ensures var b := "" + (head + "}\n");
      Find(b, '{') == 0 && RFind(b, '}') == |head| && '\n' !in b[0..|head| + 1]
      && b[0..|head| + 1] == head + "}" && b[|head|..] == "}\n"
  {
    var b := "" + (head + "}\n");
    assert b == head + "}\n";
    FindIs(b, '{', 0);
    assert b[|head|] == '}' && b[|head| + 1] == '\n';
    RFindIs(b, '}', |head|);
    assert b[0..|head| + 1] == head + "}";
  }

  /** The nested message is dispatched from one chunk and lost from two, for
      a parser that rejects the truncated text as `json.loads` does. */
  lemma NestedSplitDispatch(head: string, decode: string -> Option<Object>, o: Object)
    requires OneLine(head)
    requires decode(head).None?
    requires decode(head + "}") == Some(o) && Kind(o).Some?
    ensures Dispatched(Reframe("", head + "}\n").pieces, decode) == [o]
    ensures var f1 := Reframe("", head);
      !DispatchRaises(f1.pieces, decode) &&
      Dispatched(f1.pieces, decode) + Dispatched(Reframe(f1.buffer, "}\n").pieces, decode) == []
  {
    NestedSplitPieces(head);
    DispatchedOne(head + "}", decode);
    DispatchedOne(head, decode);
  }

  /** Concrete texts meeting these conditions: two telemetry-like objects,
      and the head of `{"msg_type":"a","b":{}}`. */
  lemma WitnessTexts()
    ensures OneLine("{\"msg_type\":\"a\"}") && OneLine("{\"msg_type\":\"b\"}")
    ensures OneLine("{\"msg_type\":\"a\",\"b\":{}")
  {
  }
}
