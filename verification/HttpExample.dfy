/** A response whose reading depends on how the network splits it. */
module HttpExample {
  import opened Basics
  import opened HttpHead
  import opened HttpMessage
  import opened HttpRead

  const LETTER: Byte := 0x61

  // Status 200 and one field of 65000 bytes: the head ends shortly before the limit and the body passes it.
  const FIELD: Field := Field([LETTER], seq(65000, _ => LETTER))
  const MESSAGE: Message := Message(0x31, (0x32, 0x30, 0x30), None, [FIELD])
  const END: Bytes := [CR, LF, CR, LF]

  function LongResponse(): Bytes {
    Render(MESSAGE) + (END + seq(1000, _ => LETTER))
  }

  lemma MessageIsValid()
    ensures ValidMessage(MESSAGE) && LocationValues(MESSAGE.fields) == []
  {
    assert LowerAll(FIELD.name) != LOCATION by { assert |LowerAll(FIELD.name)| == 1; }
    assert MESSAGE.fields[1..] == [];
  }

  /** The bytes of the head. */
  lemma HeadBytes()
    ensures |Render(MESSAGE)| == 65016 && Render(MESSAGE)[12] == CR
    ensures forall i | 0 <= i < 65016 && i != 12 && i != 13 :: Render(MESSAGE)[i] != CR
  {
    var start, field := StartLine(MESSAGE), FieldText(FIELD);
    assert FieldLines(MESSAGE.fields) == [field] by { assert MESSAGE.fields[1..] == []; }
    JoinedMore(start, [field]);
    JoinedOne(field);
    assert [start] + [field] == [start, field];
    assert Render(MESSAGE) == start + [CR, LF] + field;
    assert |start| == 12 && |field| == 65002;
    assert forall i | 0 <= i < 12 :: start[i] != CR;
    assert forall i | 0 <= i < 65002 :: field[i] != CR;
  }

  /** A head is found where it ends when none of its own CRs starts the ending. */
  lemma HeadEnds(head: Bytes, rest: Bytes)
    requires EndsAt(head + rest, |head|)
    requires forall i | 0 <= i < |head| && head[i] == CR :: i + 2 < |head| && head[i + 2] != CR
    ensures HasEnd(head + rest) && FindEnd(head + rest) == |head| && (head + rest)[..|head|] == head
  {
    var s := head + rest;
    forall i: nat | i < |head| ensures !EndsAt(s, i) {
      assert s[i] == head[i];
      if head[i] == CR { assert s[i + 2] == head[i + 2]; }
    }
  }

  lemma EndFollows(head: Bytes, body: Bytes)
    ensures EndsAt(head + (END + body), |head|)
  {
    var rest := END + body;
    assert rest[0] == CR && rest[1] == LF && rest[2] == CR && rest[3] == LF;
  }

  lemma AnswerOfOneHead(head: Bytes, body: Bytes)
    requires ParseHead(head) == Head(200, None)
    requires forall i | 0 <= i < |head| && head[i] == CR :: i + 2 < |head| && head[i + 2] != CR
    ensures AnswerOf(head + (END + body)) == Final(200, None) && DecidedBy(head + (END + body)) == Some(|head| + 4)
  {
    hide ParseHead, FindEnd, HasEnd;
    EndFollows(head, body);
    HeadEnds(head, END + body);
  }

  /** The response is one of those near the limit: small reads answer 200, large ones find it oversized. */
  lemma NearLimitExample()
    ensures NearLimit(LongResponse())
    ensures Read(LongResponse(), BYTEWISE) == Final(200, None)
    ensures Read(LongResponse(), Overrun) == TooLarge
  {
    MessageIsValid();
    ParseRendered(MESSAGE);
    HeadBytes();
    hide Render, ParseHead, AnswerOf, DecidedBy, ReadFrom;
    AnswerOfOneHead(Render(MESSAGE), seq(1000, _ => LETTER));
    NearLimitReads(LongResponse());
  }
}
