/** Kafka message headers: built from a map, read back ignoring case. */
module KafkaHeaders {
  import opened Sequences
  import opened Text
  import opened LastWins

  datatype Header = Header(key: string, value: string)

  /** What one entry of the caller's map contributes to the carrier. */
  function CarrierWrite(headers: map<string, string>, key: string): Option<(string, string)> {
    if key !in headers || Trim(key) == "" then None else Some((Trim(key), Trim(headers[key])))
  }

  function CarrierWrites(headers: map<string, string>): string -> Option<(string, string)> {
    key => CarrierWrite(headers, key)
  }

  /** `order` is the order in which the runtime ranges over the map. */
  method HeaderCarrierFromMap(headers: map<string, string>, order: seq<string>) returns (carrier: map<string, string>)
    requires Enumerates(order, headers.Keys)
    ensures carrier == Collect(order, CarrierWrites(headers))
  {
    carrier := map[];
    for i := 0 to |order|
      invariant carrier == Collect(order[..i], CarrierWrites(headers))
    {
      assert order[..i + 1] == order[..i] + [order[i]];
      assert Front(order[..i + 1]) == order[..i];
      var trimmedKey := Trim(order[i]);
      if trimmedKey == "" {
        continue;
      }
      carrier := carrier[trimmedKey := Trim(headers[order[i]])];
    }
    assert order[..|order|] == order;
  }

  /** The headers of a message, in the order `order` of ranging over the carrier. */
  function MessageHeaders(carrier: map<string, string>, order: seq<string>): seq<Header>
    requires forall i :: 0 <= i < |order| ==> order[i] in carrier
  {
    seq(|order|, i requires 0 <= i < |order| => Header(order[i], carrier[order[i]]))
  }

  function HeaderKeys(headers: seq<Header>): seq<string> {
    seq(|headers|, i requires 0 <= i < |headers| => headers[i].key)
  }

  /** The header loop of NewMessage: it ranges over the carrier in some order. */
  method BuildHeaders(carrier: map<string, string>) returns (messageHeaders: seq<Header>)
    ensures Enumerates(HeaderKeys(messageHeaders), carrier.Keys)
    ensures messageHeaders == MessageHeaders(carrier, HeaderKeys(messageHeaders))
  {
    messageHeaders := [];
    var left := carrier.Keys;
    while left != {}
      invariant left <= carrier.Keys
      invariant Enumerates(HeaderKeys(messageHeaders), carrier.Keys - left)
      invariant messageHeaders == MessageHeaders(carrier, HeaderKeys(messageHeaders))
      decreases |left|
    {
      var headerKey :| headerKey in left;
      ghost var before := HeaderKeys(messageHeaders);
      messageHeaders := messageHeaders + [Header(headerKey, carrier[headerKey])];
      left := left - {headerKey};
      assert HeaderKeys(messageHeaders) == before + [headerKey];
    }
  }

  /** kafkaHeaderCarrier.Get: the first header with the key, ignoring case. */
  function Get(headers: seq<Header>, key: string): string {
    if headers == [] then ""
    else if EqualFold(headers[0].key, key) then headers[0].value
    else Get(headers[1..], key)
  }

  /** Position `i` holds the first header with the key, ignoring case. */
  predicate FirstHeader(headers: seq<Header>, key: string, i: int) {
    && 0 <= i < |headers| && EqualFold(headers[i].key, key)
    && forall j :: 0 <= j < i ==> !EqualFold(headers[j].key, key)
  }

  lemma {:induction false} GetSpec(headers: seq<Header>, key: string)
    ensures (forall i :: 0 <= i < |headers| ==> !EqualFold(headers[i].key, key)) ==> Get(headers, key) == ""
    ensures (exists i :: 0 <= i < |headers| && EqualFold(headers[i].key, key)) ==>
              exists i :: FirstHeader(headers, key, i) && Get(headers, key) == headers[i].value
    decreases |headers|
  {
    hide EqualFold;
    if headers != [] && EqualFold(headers[0].key, key) {
      assert FirstHeader(headers, key, 0);
    } else if headers != [] {
      GetSpec(headers[1..], key);
      if i :| 0 <= i < |headers| && EqualFold(headers[i].key, key) {
        assert headers[1..][i - 1] == headers[i];
        var j :| FirstHeader(headers[1..], key, j) && Get(headers[1..], key) == headers[1..][j].value;
        assert FirstHeader(headers, key, j + 1) by {
          assert forall k :: 0 < k <= j + 1 ==> headers[k] == headers[1..][k - 1];
        }
      }
    }
  }

  /** Keys that are equal ignoring case and white space around them have values
      that are equal but for the white space around them. */
  ghost predicate Consistent(headers: map<string, string>) {
    forall a, b :: a in headers && b in headers && SameHeader(a, b) ==> SameValue(headers, a, b)
  }

  predicate SameValue(headers: map<string, string>, a: string, b: string)
    requires a in headers && b in headers
  {
    Trim(headers[a]) == Trim(headers[b])
  }

  predicate SameHeader(a: string, b: string) {
    Trim(a) != "" && Trim(b) != "" && EqualFold(Trim(a), Trim(b))
  }

  /** Reading with any spelling of a key gives its trimmed value. */
  ghost predicate ReadsBack(headers: map<string, string>, message: seq<Header>, key: string) {
    key in headers && Trim(key) != "" ==>
      forall query :: EqualFold(Trim(key), query) ==> Get(message, query) == Trim(headers[key])
  }

  lemma CarrierEntry(headers: map<string, string>, order: seq<string>, key: string) returns (source: string)
    requires Enumerates(order, headers.Keys)
    requires key in Collect(order, CarrierWrites(headers))
    ensures source in headers && Trim(source) == key && key != ""
    ensures Collect(order, CarrierWrites(headers))[key] == Trim(headers[source])
  {
    CollectSpec(order, CarrierWrites(headers), key);
    var i :| LastWriter(order, CarrierWrites(headers), key, i)
             && Collect(order, CarrierWrites(headers))[key] == CarrierWrites(headers)(order[i]).value.1;
    source := order[i];
  }

  lemma ConsistentReads(headers: map<string, string>, order: seq<string>, order': seq<string>, key: string, query: string)
    requires Enumerates(order, headers.Keys) && Consistent(headers)
    requires Enumerates(order', Collect(order, CarrierWrites(headers)).Keys)
    requires key in headers && Trim(key) != "" && EqualFold(Trim(key), query)
    ensures Get(MessageHeaders(Collect(order, CarrierWrites(headers)), order'), query) == Trim(headers[key])
  {
    var carrier := Collect(order, CarrierWrites(headers));
    var message := MessageHeaders(carrier, order');
    NamesSame(headers.Keys, CarrierWrites(headers), order, Trim(key));
    assert Writes(CarrierWrites(headers), key, Trim(key));
    assert Trim(key) in order';
    var k :| 0 <= k < |order'| && order'[k] == Trim(key);
    assert EqualFold(message[k].key, query);
    GetSpec(message, query);
    var i :| 0 <= i < |message| && EqualFold(message[i].key, query) && Get(message, query) == message[i].value;
    var source := CarrierEntry(headers, order, order'[i]);
    FoldIsLower(Trim(key), query);
    FoldIsLower(Trim(source), query);
    FoldIsLower(Trim(source), Trim(key));
    assert SameHeader(source, key) && SameValue(headers, source, key);
  }

  ghost predicate AllReadBack(headers: map<string, string>, message: seq<Header>) {
    forall key: string :: ReadsBack(headers, message, key)
  }

  lemma ReadBackConsistent(headers: map<string, string>, message: seq<Header>)
    requires AllReadBack(headers, message)
    ensures Consistent(headers)
  {
    forall a, b | a in headers && b in headers && SameHeader(a, b)
      ensures SameValue(headers, a, b)
    {
      assert ReadsBack(headers, message, a) && ReadsBack(headers, message, b);
      FoldIsLower(Trim(b), Trim(b));
    }
  }

  /** Whatever the two iteration orders, every header reads back in every spelling
      if and only if keys that collide have the same value. */
  lemma HeadersReadBack(headers: map<string, string>, order: seq<string>, order': seq<string>)
    requires Enumerates(order, headers.Keys)
    requires Enumerates(order', Collect(order, CarrierWrites(headers)).Keys)
    ensures var message := MessageHeaders(Collect(order, CarrierWrites(headers)), order');
            Consistent(headers) <==> AllReadBack(headers, message)
  {
    var message := MessageHeaders(Collect(order, CarrierWrites(headers)), order');
    if Consistent(headers) {
      forall key: string ensures ReadsBack(headers, message, key) {
        forall query | key in headers && Trim(key) != "" && EqualFold(Trim(key), query)
          ensures Get(message, query) == Trim(headers[key])
        {
          ConsistentReads(headers, order, order', key, query);
        }
      }
    } else if AllReadBack(headers, message) {
      ReadBackConsistent(headers, message);
    }
  }

  /** A key no header has, in any spelling, reads as the empty string. */
  lemma AbsentHeader(headers: map<string, string>, order: seq<string>, order': seq<string>, query: string)
    requires Enumerates(order, headers.Keys)
    requires Enumerates(order', Collect(order, CarrierWrites(headers)).Keys)
    requires forall key :: key in headers && Trim(key) != "" ==> !EqualFold(Trim(key), query)
    ensures Get(MessageHeaders(Collect(order, CarrierWrites(headers)), order'), query) == ""
  {
    var message := MessageHeaders(Collect(order, CarrierWrites(headers)), order');
    forall i | 0 <= i < |message| ensures !EqualFold(message[i].key, query) {
      var source := CarrierEntry(headers, order, order'[i]);
    }
    GetSpec(message, query);
  }
}
