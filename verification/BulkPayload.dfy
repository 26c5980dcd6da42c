/** The body of a Bulk API request: an action line and a document line for each document. */
module BulkPayload {
  import opened Sequences
  import opened Documents

  const NEWLINE: byte := 10
  /** The bytes of {"index":{}} */
  const ACTION: Document := [123, 34, 105, 110, 100, 101, 120, 34, 58, 123, 125, 125]

  function Ascii(text: string): Document
    requires forall i :: 0 <= i < |text| ==> text[i] < '\U{80}'
  {
    seq(|text|, i requires 0 <= i < |text| => text[i] as byte)
  }

  lemma ActionLine()
    ensures ACTION == Ascii("{\"index\":{}}")
  {}

  predicate Terminated(d: Document) {
    d != [] && Last(d) == NEWLINE
  }

  /** A document's text, without the final newline it may carry. */
  function Body(d: Document): Document {
    if Terminated(d) then Front(d) else d
  }

  function Framed(d: Document): seq<byte> {
    ACTION + [NEWLINE] + Body(d) + [NEWLINE]
  }

  function Payload(documents: seq<Document>): seq<byte> {
    if documents == [] then [] else Payload(Front(documents)) + Framed(Last(documents))
  }

  /** The payload loop of `send`. */
  method BuildPayload(documents: seq<Document>) returns (payload: seq<byte>)
    ensures payload == Payload(documents)
  {
    payload := [];
    for i := 0 to |documents|
      invariant payload == Payload(documents[..i])
    {
      var document := documents[i];
      ghost var before := payload;
      payload := payload + (ACTION + [NEWLINE]);
      payload := payload + document;
      if |document| == 0 || document[|document| - 1] != NEWLINE {
        payload := payload + [NEWLINE];
      }
      assert payload == before + Framed(document);
      assert documents[..i + 1] == documents[..i] + [document];
      assert Front(documents[..i + 1]) == documents[..i];
    }
    assert documents[..|documents|] == documents;
  }

  // Reading: the lines of a byte string, each ended by a newline.

  function Lines(text: seq<byte>): seq<Document> {
    LinesFrom([], text)
  }

  /** `open` is the part of the current line already read. */
  function LinesFrom(open: Document, text: seq<byte>): seq<Document>
    decreases |text|
  {
    if text == [] then []
    else if text[0] == NEWLINE then [open] + LinesFrom([], text[1..])
    else LinesFrom(open + [text[0]], text[1..])
  }

  function Ended(line: Document): Document {
    line + [NEWLINE]
  }

  function Unlines(lines: seq<Document>): seq<byte> {
    if lines == [] then [] else Unlines(Front(lines)) + Ended(Last(lines))
  }

  lemma {:induction false} LinesAppend(open: Document, line: Document, rest: seq<byte>)
    requires NEWLINE !in line
    ensures LinesFrom(open, line + [NEWLINE] + rest) == [open + line] + Lines(rest)
    decreases |line|
  {
    var text := line + [NEWLINE] + rest;
    if line == [] {
      assert text[1..] == rest && open + line == open;
    } else {
      assert text[1..] == line[1..] + [NEWLINE] + rest;
      LinesAppend(open + [line[0]], line[1..], rest);
      assert open + [line[0]] + line[1..] == open + line;
    }
  }

  /** The lines of text that is followed by more, when the text ends with a newline. */
  lemma {:induction false} LinesSplit(open: Document, text: seq<byte>, rest: seq<byte>)
    ensures LinesFrom(open, text + [NEWLINE] + rest) == LinesFrom(open, text + [NEWLINE]) + Lines(rest)
    decreases |text|
  {
    var whole, part := text + [NEWLINE] + rest, text + [NEWLINE];
    if text == [] {
      assert whole[1..] == rest && part[1..] == [];
    } else {
      assert whole[1..] == text[1..] + [NEWLINE] + rest && part[1..] == text[1..] + [NEWLINE];
      LinesSplit(if text[0] == NEWLINE then [] else open + [text[0]], text[1..], rest);
    }
  }

  function Newlines(text: seq<byte>): nat {
    if text == [] then 0 else Newlines(text[1..]) + (if text[0] == NEWLINE then 1 else 0)
  }

  lemma {:induction false} NewlinesConcat(left: seq<byte>, right: seq<byte>)
    ensures Newlines(left + right) == Newlines(left) + Newlines(right)
    decreases |left|
  {
    if left == [] {
      assert left + right == right;
    } else {
      assert (left + right)[1..] == left[1..] + right;
      NewlinesConcat(left[1..], right);
    }
  }

  lemma {:induction false} CountLines(open: Document, text: seq<byte>)
    ensures |LinesFrom(open, text)| == Newlines(text)
    decreases |text|
  {
    if text != [] {
      CountLines(if text[0] == NEWLINE then [] else open + [text[0]], text[1..]);
    }
  }

  lemma {:induction false} NoNewlines(text: seq<byte>)
    ensures Newlines(text) == 0 <==> NEWLINE !in text
    decreases |text|
  {
    if text != [] {
      NoNewlines(text[1..]);
    }
  }

  // The framing.

  /** A document of one line: no newline, except possibly a final one. */
  predicate OneLine(d: Document) {
    NEWLINE !in Body(d)
  }

  predicate AllOneLine(documents: seq<Document>) {
    forall i :: 0 <= i < |documents| ==> OneLine(documents[i])
  }

  /** An action line and a body line for each document. */
  function Expected(documents: seq<Document>): seq<Document> {
    if documents == [] then [] else Expected(Front(documents)) + [ACTION, Body(Last(documents))]
  }

  lemma {:induction false} ExpectedAt(documents: seq<Document>, i: nat)
    requires i < |documents|
    ensures |Expected(documents)| == 2 * |documents|
    ensures Expected(documents)[2 * i] == ACTION
    ensures Expected(documents)[2 * i + 1] == Body(documents[i])
    decreases |documents|
  {
    if |documents| > 1 {
      ExpectedAt(Front(documents), if i < |documents| - 1 then i else 0);
    }
  }

  lemma TwoLines(d: Document)
    requires OneLine(d)
    ensures Lines(Framed(d)) == [ACTION, Body(d)]
  {
    hide Body, LinesFrom;
    var action := ACTION;
    assert NEWLINE !in action;
    LinesAppend([], action, Body(d) + [NEWLINE]);
    assert action + [NEWLINE] + (Body(d) + [NEWLINE]) == Framed(d);
    LinesAppend([], Body(d), []);
    assert Body(d) + [NEWLINE] + [] == Body(d) + [NEWLINE];
    assert [] + action == action && [] + Body(d) == Body(d);
    NoLines();
  }

  lemma NoLines()
    ensures Lines([]) == []
  {}

  lemma {:induction false} FramedLines(documents: seq<Document>)
    requires AllOneLine(documents)
    ensures Lines(Payload(documents)) == Expected(documents)
    decreases |documents|
  {
    hide Framed, LinesFrom, Body;
    if documents == [] {
      NoLines();
    } else {
      var before, d := Front(documents), Last(documents);
      FramedLines(before);
      assert OneLine(documents[|documents| - 1]);
      LastByte(before);
      TwoLines(d);
      if before != [] {
        LinesSplit([], Front(Payload(before)), Framed(d));
        assert Front(Payload(before)) + [NEWLINE] == Payload(before);
      } else {
        NoLines();
        assert [] + Framed(d) == Framed(d);
      }
    }
  }

  lemma LastByte(documents: seq<Document>)
    ensures documents != [] ==> Payload(documents) != [] && Last(Payload(documents)) == NEWLINE
  {}

  lemma FramedNewlines(d: Document)
    ensures Newlines(Framed(d)) == 2 + Newlines(Body(d))
  {
    var action := ACTION;
    NoNewlines(action);
    NewlinesConcat(action + [NEWLINE] + Body(d), [NEWLINE]);
    NewlinesConcat(action + [NEWLINE], Body(d));
    NewlinesConcat(action, [NEWLINE]);
    assert Newlines([NEWLINE]) == 1 + Newlines([]);
  }

  lemma {:induction false} CountFramed(documents: seq<Document>)
    ensures Newlines(Payload(documents)) >= 2 * |documents|
    ensures Newlines(Payload(documents)) == 2 * |documents| <==> AllOneLine(documents)
    decreases |documents|
  {
    if documents != [] {
      var before, d := Front(documents), Last(documents);
      CountFramed(before);
      NewlinesConcat(Payload(before), Framed(d));
      FramedNewlines(d);
      NoNewlines(Body(d));
      assert documents == before + [d];
    }
  }

  /** The payload is 2n newline-terminated lines, the action before each document's
      body, in order, if and only if every document is a single line. */
  lemma Framing(documents: seq<Document>)
    ensures |Lines(Payload(documents))| == 2 * |documents| <==> AllOneLine(documents)
    ensures AllOneLine(documents) ==>
              && Unlines(Lines(Payload(documents))) == Payload(documents)
              && (forall i :: 0 <= i < |documents| ==>
                    && Lines(Payload(documents))[2 * i] == ACTION
                    && Lines(Payload(documents))[2 * i + 1] == Body(documents[i]))
  {
    CountLines([], Payload(documents));
    CountFramed(documents);
    if AllOneLine(documents) {
      FramedLines(documents);
      UnlinesExpected(documents);
      forall i | 0 <= i < |documents|
        ensures Lines(Payload(documents))[2 * i] == ACTION
        ensures Lines(Payload(documents))[2 * i + 1] == Body(documents[i])
      {
        ExpectedAt(documents, i);
      }
    }
  }

  lemma UnlinesTwo(lines: seq<Document>, a: Document, b: Document)
    ensures Unlines(lines + [a, b]) == Unlines(lines) + Ended(a) + Ended(b)
  {
    var all := lines + [a, b];
    assert Front(all) == lines + [a] && Front(lines + [a]) == lines;
  }

  lemma {:induction false} UnlinesExpected(documents: seq<Document>)
    ensures Unlines(Expected(documents)) == Payload(documents)
    decreases |documents|
  {
    hide Unlines, Body;
    if documents == [] {
      UnlinesNone();
    } else {
      UnlinesExpected(Front(documents));
      UnlinesTwo(Expected(Front(documents)), ACTION, Body(Last(documents)));
      assert Ended(ACTION) + Ended(Body(Last(documents))) == Framed(Last(documents));
    }
  }

  lemma UnlinesNone()
    ensures Unlines([]) == []
  {}
}
