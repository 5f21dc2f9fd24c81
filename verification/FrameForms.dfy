/** Frames, whoever wrote them: exactly these are read, and each as what it means. */
module FrameForms {
  import opened Bytes
  import opened Json
  import opened Wire
  import opened WireForms
  import opened WireMachines
  import opened Words

  /** The magic `FIDX`, the version, the length of the payload, and the payload: a term behind the byte 131. */
  function FrameOf(version: Byte, form: Form): Buffer {
    [0x46, 0x49, 0x44, 0x58, version] + Four(|WireForms.Written(form)| + 1) + ([131] + WireForms.Written(form))
  }

  predicate Fits(form: Form) {
    Readable(form, 128) && |WireForms.Written(form)| + 1 <= 0x400_0000
  }

  lemma FormPayload(form: Form)
    requires Readable(form, 128)
    ensures DecodePayload([131] + WireForms.Written(form)) == Ok(Meaning(form), |WireForms.Written(form)| + 1)
  {
    var payload: Buffer := [131] + WireForms.Written(form);
    HoldsBetween([131], WireForms.Written(form), []);
    EveryFormIsRead(payload, 1, 0, form);
  }

  lemma FrameParts(version: Byte, length: Buffer, payload: Buffer, rest: Buffer)
    requires |length| == 4
    ensures var stream := [0x46, 0x49, 0x44, 0x58, version] + length + payload + rest;
            && |stream| == 9 + |payload| + |rest| && stream[..4] == MAGIC && stream[4] == version && stream[5..9] == length
            && stream[9..9 + |payload|] == payload && stream[9 + |payload|..] == rest
  {
  }

  lemma LengthReads(n: nat)
    requires n < 0x1_0000_0000
    ensures FromBigEndian(Four(n)) == n
  {
    Powers();
    BigEndianIsWritten(n);
    BigEndianRoundTrip(n, 4);
  }

  /** A frame that fits is read as what it means, whatever follows. */
  lemma EveryFrameIsRead(version: Byte, form: Form, rest: Buffer)
    requires Fits(form)
    ensures ReadFrame(FrameOf(version, form) + rest, version) == Frame(Meaning(form), rest)
  {
    var payload: Buffer := [131] + WireForms.Written(form);
    FormPayload(form);
    LengthReads(|payload|);
    FrameParts(version, Four(|payload|), payload, rest);
  }

  lemma HeaderIs(stream: Buffer, version: Byte, length: nat)
    requires |stream| >= 9 + length && stream[..4] == MAGIC && stream[4] == version && FromBigEndian(stream[5..9]) == length
    ensures length < 0x1_0000_0000
    ensures stream == [0x46, 0x49, 0x44, 0x58, version] + Four(length) + stream[9..9 + length] + stream[9 + length..]
  {
    BigEndianBack(stream[5..9]);
    Powers();
    BigEndianIsWritten(length);
    assert stream[5..9] == Four(length);
    assert stream[..5] == stream[..4] + [stream[4]];
    assert stream == stream[..5] + stream[5..9] + stream[9..9 + length] + stream[9 + length..];
  }

  /** Whatever is read was such a frame, of just that meaning, with just that rest behind it. */
  lemma OnlyFramesAreRead(stream: Buffer, version: Byte) returns (form: Form)
    requires ReadFrame(stream, version).Frame?
    ensures Fits(form) && Meaning(form) == ReadFrame(stream, version).value
    ensures stream == FrameOf(version, form) + ReadFrame(stream, version).rest
  {
    var length := FromBigEndian(stream[5..9]);
    HeaderIs(stream, version, length);
    var payload := stream[9..9 + length];
    form := OnlyFormsAreRead(payload, 1, 0);
    assert payload == [131] + payload[1..] && payload[1..] == WireForms.Written(form);
  }

  /** So what the encoder writes is one of the forms, of the canonical form's meaning. */
  lemma EncodingIsAForm(v: Value) returns (form: Form)
    requires Sendable(v) && Nesting(v) <= 128
    ensures Readable(form, 128) && WireForms.Written(form) == Encode(v) && Meaning(form) == Canonical(v)
  {
    HoldsBetween([], Encode(v), []);
    assert [] + Encode(v) == Encode(v);
    RoundTrip(Encode(v), 0, 0, v);
    form := OnlyFormsAreRead(Encode(v), 0, 0);
    assert Encode(v)[0..|Encode(v)|] == Encode(v);
  }

  ghost predicate IsPayload(payload: Buffer, form: Form) {
    Readable(form, 128) && payload == [131] + WireForms.Written(form)
  }

  lemma PayloadForms(payload: Buffer)
    ensures DecodePayload(payload).Ok? <==> exists form :: IsPayload(payload, form)
    ensures forall form :: IsPayload(payload, form) ==> DecodePayload(payload) == Ok(Meaning(form), |payload|)
  {
    forall form | IsPayload(payload, form) ensures DecodePayload(payload) == Ok(Meaning(form), |payload|) { FormPayload(form); }
    if DecodePayload(payload).Ok? {
      var form := OnlyFormsAreRead(payload, 1, 0);
      assert payload == [131] + payload[1..];
      assert IsPayload(payload, form);
    }
  }

  /** A payload is accepted exactly if it is the byte 131 and one readable form, and then gives what the form means. */
  method ReadPayload(payload: Buffer) returns (r: Result<Value>)
    ensures r == DecodePayload(payload)
    ensures r.Ok? <==> exists form :: IsPayload(payload, form)
    ensures forall form :: IsPayload(payload, form) ==> r == Ok(Meaning(form), |payload|)
  {
    PayloadForms(payload);
    var decoder := new Decoder(payload);
    var version := decoder.TakeBytes(1);
    if version.Err? { return Err(Truncated); }
    if version.value[0] != ETF_VERSION { return Err(NotATerm); }
    r := decoder.ReadValue(0);
    if r.Ok? && decoder.position != |payload| { r := Err(TrailingBytes); }
  }
}
