/** From the call data writer to the contract: what a transaction with the written text as its data does. */
module Calls {
  import opened Wrappers
  import opened Bytes
  import opened Digits
  import opened Eip712
  import opened Contract
  import opened WitnessLog
  import Abi
  import Attestation

  /** What a call returns and leaves. */
  datatype Answer =
    | BatchAnswer(batch: Result<(State, Counts), Error>)
    | DocAnswer(doc: Result<(State, Attested), Error>)

  // ---- ABI values as arguments ----

  function BlockFrom(v: Abi.Value): Option<DocBlock> {
    if v.Items? && |v.vs| == 4 && v.vs[0].Raw? && v.vs[1].Num? && v.vs[1].n < 0x1_0000_0000_0000_0000
       && v.vs[2].Raw? && v.vs[3].Raw?
    then Some(DocBlock(v.vs[0].w, v.vs[1].n, v.vs[2].w, v.vs[3].w))
    else None
  }

  function AttestationFrom(v: Abi.Value): Option<DocAttestation> {
    if v.Items? && |v.vs| == 5 && v.vs[0].Addr? && v.vs[1].Addr? && v.vs[3].Blob? && v.vs[4].Num? && v.vs[4].n < TWO_256
    then
      var block :- BlockFrom(v.vs[2]);
      Some(DocAttestation(v.vs[0].a, v.vs[1].a, block, v.vs[3].b, v.vs[4].n))
    else None
  }

  function AttestationsFrom(vs: seq<Abi.Value>): Option<seq<DocAttestation>> {
    if vs == [] then Some([])
    else
      var init :- AttestationsFrom(vs[..|vs| - 1]);
      var last :- AttestationFrom(vs[|vs| - 1]);
      Some(init + [last])
  }

  function BlobsFrom(vs: seq<Abi.Value>): Option<seq<bytes>> {
    if vs == [] then Some([])
    else
      var init :- BlobsFrom(vs[..|vs| - 1]);
      if vs[|vs| - 1].Blob? then Some(init + [vs[|vs| - 1].b]) else None
  }

  function Selector(digits: string): bytes {
    if IsHex(digits) && |digits| == 8 then FromHex(digits) else []
  }

  /** The arguments of `attestBatch` in the data after its selector. */
  function BatchArguments(data: bytes): Option<(seq<DocAttestation>, seq<bytes>)> {
    var values :- Abi.DecAll(Attestation.BatchTypes(), data, 0, 0);
    if |values| == 2 && values[0].Items? && values[1].Items? then
      var attestations :- AttestationsFrom(values[0].vs);
      var signatures :- BlobsFrom(values[1].vs);
      Some((attestations, signatures))
    else None
  }

  /** The arguments of `attestDoc`. */
  function DocArguments(data: bytes): Option<Item> {
    var values :- Abi.DecAll(Attestation.DocTypes(), data, 0, 0);
    if |values| == 2 && values[1].Blob? then
      var attestation :- AttestationFrom(values[0]);
      Some(Item(attestation, values[1].b))
    else None
  }

  /** A call by its data: the selector picks the function, the ABI decodes its arguments. */
  function Call(rules: Rules, st: State, data: bytes): Option<Answer> {
    if |data| < 4 then None
    else if data[..4] == Selector(Attestation.ATTEST_BATCH_SELECTOR) then
      var arguments :- BatchArguments(data[4..]);
      Some(BatchAnswer(AttestBatch(rules, st, arguments.0, arguments.1)))
    else if data[..4] == Selector(Attestation.ATTEST_DOC_SELECTOR) then
      var item :- DocArguments(data[4..]);
      Some(DocAnswer(AttestOne(rules, st, item, false)))
    else None
  }

  // ---- the written data is the intended call ----

  function AttestationsOf(items: seq<Attestation.Submission>): (r: seq<DocAttestation>)
    requires Attestation.AllSmall(items)
    ensures |r| == |items|
  {
    seq(|items|, i requires 0 <= i < |items| => assert items[i] in items; Attestation.AttestationOf(items[i].fields))
  }

  function SignaturesOf(items: seq<Attestation.Submission>): (r: seq<bytes>)
    requires Attestation.AllSmall(items)
    ensures |r| == |items|
  {
    seq(|items|, i requires 0 <= i < |items| => assert items[i] in items; Attestation.SignatureOf(items[i]))
  }

  lemma AttestationBack(a: DocAttestation)
    ensures AttestationFrom(Attestation.AttestationValue(a)) == Some(a)
  {
    assert BlockFrom(Abi.Items(Attestation.BlockValues(a.docBlock))) == Some(a.docBlock);
  }

  lemma {:induction false} AttestationsBack(xs: seq<DocAttestation>, vs: seq<Abi.Value>)
    requires |xs| == |vs| && forall i | 0 <= i < |vs| :: vs[i] == Attestation.AttestationValue(xs[i])
    ensures AttestationsFrom(vs) == Some(xs)
  {
    hide Attestation.AttestationValue, AttestationFrom;
    if vs != [] {
      var n := |vs| - 1;
      AttestationsBack(xs[..n], vs[..n]);
      AttestationBack(xs[n]);
      assert xs == xs[..n] + [xs[n]];
    }
  }

  lemma {:induction false} BlobsBack(xs: seq<bytes>, vs: seq<Abi.Value>)
    requires |xs| == |vs| && forall i | 0 <= i < |vs| :: vs[i] == Abi.Blob(xs[i])
    ensures BlobsFrom(vs) == Some(xs)
  {
    if vs != [] {
      var n := |vs| - 1;
      BlobsBack(xs[..n], vs[..n]);
      assert xs == xs[..n] + [xs[n]];
    }
  }

  /** The bytes of a written text: its selector, then its arguments. */
  lemma TextBytes(text: string, digits: string)
    requires |digits| == 8 && IsHex(digits) && |text| >= 10 && text[..10] == "0x" + digits
    requires IsHex(text[10..]) && |text[10..]| % 2 == 0
    ensures IsHex(text[2..]) && |text[2..]| % 2 == 0
    ensures var data := FromHex(text[2..]);
      |data| >= 4 && data[..4] == Selector(digits) && data[4..] == FromHex(text[10..])
  {
    hide IsHex, FromHex;
    assert text[2..10] == text[..10][2..] == digits;
    assert text[2..] == digits + text[10..];
    FromHexConcat(digits, text[10..]);
  }

  lemma Selectors()
    ensures IsHex(Attestation.ATTEST_BATCH_SELECTOR) && IsHex(Attestation.ATTEST_DOC_SELECTOR)
    ensures Selector(Attestation.ATTEST_BATCH_SELECTOR) != Selector(Attestation.ATTEST_DOC_SELECTOR)
  {
    var b, d := Attestation.ATTEST_BATCH_SELECTOR, Attestation.ATTEST_DOC_SELECTOR;
    IsHexDigits(b);
    IsHexDigits(d);
    assert FromHex(b)[0] == ByteOf(b[0], b[1]) && FromHex(d)[0] == ByteOf(d[0], d[1]);
  }

  /** A transaction with the written batch as its data is `attestBatch` of exactly the attestations and signatures
      the items mean; so it succeeds exactly when the contract accepts those. */
  lemma {:induction false} WrittenBatchIsAttested(rules: Rules, st: State, items: seq<Attestation.Submission>)
    requires items != [] && Attestation.AllSmall(items) && Attestation.TextFits(Attestation.BatchCalldata(items))
    ensures Attestation.BatchCalldata(items).Ok?
    ensures var text := Attestation.BatchCalldata(items).value;
      && |text| >= 2 && IsHex(text[2..]) && |text[2..]| % 2 == 0
      && var answer := AttestBatch(rules, st, AttestationsOf(items), SignaturesOf(items));
         && Call(rules, st, FromHex(text[2..])) == Some(BatchAnswer(answer))
         && (answer.Ok? <==> Acceptable(rules, st.recorded, Zip(AttestationsOf(items), SignaturesOf(items))))
  {
    hide Attestation.BatchCalldata, Attestation.BatchTypes, Attestation.AttestationValue, Attestation.AttestationOf;
    hide Attestation.SignatureOf, Attestation.AllSmall, Abi.DecAll, IsHex, FromHex, Selector, AttestBatch, Acceptable;
    hide AttestationsFrom, BlobsFrom, Attestation.Small, Attestation.ValidSubmission;
    Attestation.BatchRoundTrip(items);
    var text := Attestation.BatchCalldata(items).value;
    Selectors();
    TextBytes(text, Attestation.ATTEST_BATCH_SELECTOR);
    AttestationsBack(AttestationsOf(items), Attestation.AttestationValues(items));
    BlobsBack(SignaturesOf(items), Attestation.SignatureValues(items));
    AttestBatchAccepts(rules, st, AttestationsOf(items), SignaturesOf(items));
    NotEmpty(AttestationsOf(items));
  }

  lemma NotEmpty<T>(xs: seq<T>)
    ensures |xs| > 0 <==> xs != []
  {
  }

  /** The same for a single submission and `attestDoc`. */
  lemma {:induction false} WrittenDocIsAttested(rules: Rules, st: State, item: Attestation.Submission)
    requires Attestation.ValidSubmission(item) && Attestation.Small(item)
    requires Attestation.TextFits(Attestation.DocCalldata(item))
    ensures Attestation.DocCalldata(item).Ok?
    ensures var text := Attestation.DocCalldata(item).value;
      && |text| >= 2 && IsHex(text[2..]) && |text[2..]| % 2 == 0
      && Call(rules, st, FromHex(text[2..]))
         == Some(DocAnswer(AttestOne(
              rules, st, Item(Attestation.AttestationOf(item.fields), Attestation.SignatureOf(item)), false)))
  {
    hide Attestation.DocCalldata, Attestation.DocTypes, Attestation.AttestationValue, Attestation.AttestationOf;
    hide Attestation.SignatureOf, Attestation.ValidFields, Attestation.IsBytesText, Abi.DecAll, IsHex, FromHex;
    hide Selector;
    hide AttestationFrom, AttestOne;
    Attestation.DocRoundTrip(item);
    var text := Attestation.DocCalldata(item).value;
    Selectors();
    TextBytes(text, Attestation.ATTEST_DOC_SELECTOR);
    AttestationBack(Attestation.AttestationOf(item.fields));
  }
}
