/** The table classes of bert_reader/tables.py. `Bert` keeps the decoded table in
    its `data` field, which its initializer assigns once; the initializer reads the
    raw bytes it is given (reading them from a file is not part of this model) and
    decodes the same fields at the same offsets as the root copy's `get_bert_table`.
    `check_header_signature` is the `GenericTable` check a subclass may run on `data`. */
module Tables {
  import opened Bytes
  import opened Results
  import opened BertTable

  class Bert {
    var data: BertRecord

    constructor (d: BertRecord)
      ensures data == d
    {
      data := d;
    }

    /** `Bert.__init__` on the bytes of a table: the decoded table, or the error of the
        first field read that raises. The signature is never checked. */
    static method FromBytes(raw: seq<Byte>) returns (r: Result<Bert>)
      ensures r.Success? <==> DecodeBert(raw).Success?
      ensures r.Failure? ==> r.error == DecodeBert(raw).error
      ensures r.Success? ==> fresh(r.value) && r.value.data == DecodeBert(raw).value
    {
      var d :- DecodeBert(raw);
      var t := new Bert(d);
      r := Success(t);
    }

    /** `check_header_signature`: raises exactly when the decoded signature is not the
        expected one, and changes nothing. */
    method CheckHeaderSignature(signature: string) returns (o: Outcome)
      ensures o == Pass <==> data.headerSignature == signature
      ensures o.Fail? ==> o.error == SignatureMismatch
    {
      if data.headerSignature != signature {
        return Fail(SignatureMismatch);
      }
      return Pass;
    }
  }
}
