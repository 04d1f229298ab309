/** The canonical text that an audit row's hash covers: each field as
    "<length>:<field>|", the six fields one after the other. */
module AuditEncoding {
  import opened Text

  function EncodeField(f: string): string {
    Dec(|f|) + [':'] + (f + ['|'])
  }

  function Encode(fields: seq<string>): string {
    if fields == [] then "" else EncodeField(fields[0]) + Encode(fields[1..])
  }

  datatype Decoded = Decoded(field: string, rest: string)

  /** Reads one field back: the length up to the first ':', that many bytes, and the '|'. */
  function DecodeField(s: string): Option<Decoded> {
    var colon := IndexOf(s, ':');
    if colon == |s| || !AllDigits(s[..colon]) then None
    else
      var n := DecValue(s[..colon]);
      var body := s[colon + 1..];
      if n < |body| && body[n] == '|' then Some(Decoded(body[..n], body[n + 1..])) else None
  }

  function Decode(s: string): Option<seq<string>>
    decreases |s|
  {
    if s == "" then Some([])
    else
      match DecodeField(s)
      case None => None
      case Some(d) =>
        if |d.rest| >= |s| then None
        else
          match Decode(d.rest)
          case None => None
          case Some(fields) => Some([d.field] + fields)
  }

  lemma DecodeFieldEncoded(f: string, rest: string)
    ensures DecodeField(EncodeField(f) + rest) == Some(Decoded(f, rest))
  {
    var digits := Dec(|f|);
    var body := f + ['|'] + rest;
    var s := EncodeField(f) + rest;
    assert s == digits + [':'] + body;
    assert ':' !in digits by {
      assert forall i :: 0 <= i < |digits| ==> IsDigit(digits[i]);
    }
    IndexOfConcat(digits, ':', body);
    assert s[..|digits|] == digits && s[|digits| + 1..] == body;
    DecRoundTrip(|f|);
    assert body[|f|] == '|' && body[..|f|] == f && body[|f| + 1..] == rest;
  }

  /** Decoding undoes encoding, whatever bytes the fields hold. */
  lemma {:induction false} DecodeEncoded(fields: seq<string>)
    ensures Decode(Encode(fields)) == Some(fields)
    decreases |fields|
  {
    if fields != [] {
      assert |EncodeField(fields[0])| > 0;
      assert [fields[0]] + fields[1..] == fields;
      DecodeFieldEncoded(fields[0], Encode(fields[1..]));
      DecodeEncoded(fields[1..]);
    }
  }

  lemma EncodeInjective(a: seq<string>, b: seq<string>)
    requires Encode(a) == Encode(b)
    ensures a == b
  {
    DecodeEncoded(a);
    DecodeEncoded(b);
  }

  // ---- hashing the fields ----

  /** computeHash as a function of the field list. */
  function HashFields(sha: string -> string): seq<string> -> string {
    fields => sha(Encode(fields))
  }

  /** Two field lists with one hash: either they are the same list, or two different
      texts have the same digest. */
  lemma SameHashOrCollision(sha: string -> string, a: seq<string>, b: seq<string>)
    requires HashFields(sha)(a) == HashFields(sha)(b)
    ensures a == b || (Encode(a) != Encode(b) && sha(Encode(a)) == sha(Encode(b)))
  {
    if Encode(a) == Encode(b) {
      EncodeInjective(a, b);
    }
  }
}
