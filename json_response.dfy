/**
 * `JsonResponse`: a response whose body is the JSON encoding of a PHP array and whose
 * `Content-Type` is `application/json` unless the caller's headers say otherwise.
 */
module JsonResponses {
  import opened Wrappers
  import opened PhpStrings
  import opened PhpValues
  import opened HttpMessages

  const DefaultStatus: int := 200
  const DefaultBody: Value := Arr([])
  const ContentType: string := "Content-Type"
  const ApplicationJson: string := "application/json"
  const NotSerializable: string := "Response body could not be serialized into JSON."

  // ---------------------------------------------------------------- the header array

  /** The value of the last entry whose key is exactly `name`. */
  function ExactLast(entries: seq<(string, string)>, name: string): Option<string>
    decreases |entries|
  {
    if entries == [] then None
    else if entries[|entries| - 1].0 == name then Some(entries[|entries| - 1].1)
    else ExactLast(entries[..|entries| - 1], name)
  }

  /** The entries whose key is not exactly `name`, in order. */
  function Without(entries: seq<(string, string)>, name: string): (r: seq<(string, string)>)
    ensures forall i | 0 <= i < |r| :: r[i].0 != name
    decreases |entries|
  {
    if entries == [] then []
    else if entries[|entries| - 1].0 == name then Without(entries[..|entries| - 1], name)
    else Without(entries[..|entries| - 1], name) + [entries[|entries| - 1]]
  }

  /**
   * `["Content-Type" => "application/json", ...$headers]`: a caller entry under the exact
   * key `Content-Type` takes the first place's value; every other entry follows in order.
   */
  function Merged(headers: seq<(string, string)>): seq<(string, string)> {
    [(ContentType, ExactLast(headers, ContentType).GetOr(ApplicationJson))] + Without(headers, ContentType)
  }

  /** `new JsonResponse($status, $body, $headers)`. */
  function Make(status: int, body: Value, headers: seq<(string, string)>, json: JsonCodec, at: Origin): (r: Outcome)
    ensures r.Success? <==> json.encode(body).Some?
    ensures r.Failure? ==> r.error == UnexpectedValue(NotSerializable, at)
    ensures r.Success? ==> r.value.status == status && r.value.body == json.encode(body).value
  {
    match json.encode(body)
    case None => Failure(UnexpectedValue(NotSerializable, at))
    case Some(encoded) => Success(Response(status, FromArray(Merged(headers)), encoded))
  }

  /** `new JsonResponse()`: 200 with the encoding of the empty array. */
  function MakeDefault(json: JsonCodec, at: Origin): Outcome {
    Make(DefaultStatus, DefaultBody, [], json, at)
  }

  // ---------------------------------------------------------------- reading the headers back

  lemma {:induction false} LastValueAppend(a: seq<(string, string)>, b: seq<(string, string)>, name: string)
    ensures LastValue(a + b, name) == if LastValue(b, name).Some? then LastValue(b, name) else LastValue(a, name)
    decreases |b|
  {
    if b != [] {
      assert (a + b)[..|a + b| - 1] == a + b[..|b| - 1];
      LastValueAppend(a, b[..|b| - 1], name);
    } else {
      assert a + b == a;
    }
  }

  /** Dropping entries of another name does not change what a name reads. */
  lemma {:induction false} LastValueWithout(entries: seq<(string, string)>, dropped: string, name: string)
    requires Lower(dropped) != Lower(name)
    ensures LastValue(Without(entries, dropped), name) == LastValue(entries, name)
    decreases |entries|
  {
    if entries != [] {
      var init := entries[..|entries| - 1];
      LastValueWithout(init, dropped, name);
      if entries[|entries| - 1].0 != dropped {
        LastValueAppend(Without(init, dropped), [entries[|entries| - 1]], name);
        assert [entries[|entries| - 1]][..0] == [];
      }
    }
  }

  /** An entry no other entry shares a name with (up to case) is the one that reads. */
  lemma {:induction false} LastValueOfUnique(entries: seq<(string, string)>, i: nat)
    requires i < |entries|
    requires forall j | 0 <= j < |entries| && j != i :: Lower(entries[j].0) != Lower(entries[i].0)
    ensures LastValue(entries, entries[i].0) == Some(entries[i].1)
    decreases |entries|
  {
    if i < |entries| - 1 {
      LastValueOfUnique(entries[..|entries| - 1], i);
    }
  }

  /** No entry with a name equal to `name` up to case: nothing reads. */
  lemma {:induction false} LastValueAbsent(entries: seq<(string, string)>, name: string)
    requires forall j | 0 <= j < |entries| :: Lower(entries[j].0) != Lower(name)
    ensures LastValue(entries, name) == None
    decreases |entries|
  {
    if entries != [] {
      LastValueAbsent(entries[..|entries| - 1], name);
    }
  }

  /** An entry that is kept and whose name no other entry shares (up to case) reads after the drop. */
  lemma {:induction false} LastValueWithoutUnique(entries: seq<(string, string)>, dropped: string, i: nat)
    requires i < |entries| && entries[i].0 != dropped
    requires forall j | 0 <= j < |entries| && j != i :: Lower(entries[j].0) != Lower(entries[i].0)
    ensures LastValue(Without(entries, dropped), entries[i].0) == Some(entries[i].1)
    decreases |entries|
  {
    var init := entries[..|entries| - 1];
    var last := entries[|entries| - 1];
    if i < |entries| - 1 {
      LastValueWithoutUnique(init, dropped, i);
      if last.0 != dropped {
        LastValueAppend(Without(init, dropped), [last], entries[i].0);
        assert [last][..0] == [];
      }
    }
  }

  lemma {:induction false} WithoutSubset(entries: seq<(string, string)>, name: string)
    ensures forall k | 0 <= k < |Without(entries, name)| :: Without(entries, name)[k] in entries
    decreases |entries|
  {
    if entries != [] {
      var init := entries[..|entries| - 1];
      WithoutSubset(init, name);
      assert forall e | e in init :: e in entries;
    }
  }

  /** With no caller header named Content-Type in any case, the response is `application/json`. */
  lemma DefaultContentType(headers: seq<(string, string)>)
    requires forall j | 0 <= j < |headers| :: Lower(headers[j].0) != Lower(ContentType)
    ensures HeaderLine(FromArray(Merged(headers)), ContentType) == ApplicationJson
  {
    var rest := Without(headers, ContentType);
    WithoutSubset(headers, ContentType);
    assert forall k | 0 <= k < |rest| :: Lower(rest[k].0) != Lower(ContentType) by {
      forall k | 0 <= k < |rest|
        ensures Lower(rest[k].0) != Lower(ContentType)
      {
        var j :| 0 <= j < |headers| && headers[j] == rest[k];
      }
    }
    LastValueAbsent(rest, ContentType);
    LastValueAbsent(headers, ContentType);
    assert ExactLast(headers, ContentType) == None by {
      ExactLastAbsent(headers, ContentType);
    }
    LastValueAppend([(ContentType, ApplicationJson)], rest, ContentType);
    FromArrayReads(Merged(headers), ContentType);
  }

  lemma {:induction false} ExactLastAbsent(entries: seq<(string, string)>, name: string)
    requires forall j | 0 <= j < |entries| :: Lower(entries[j].0) != Lower(name)
    ensures ExactLast(entries, name) == None
    decreases |entries|
  {
    if entries != [] {
      ExactLastAbsent(entries[..|entries| - 1], name);
    }
  }

  lemma {:induction false} ExactLastOfUnique(entries: seq<(string, string)>, i: nat)
    requires i < |entries|
    requires forall j | 0 <= j < |entries| && j != i :: Lower(entries[j].0) != Lower(entries[i].0)
    ensures ExactLast(entries, entries[i].0) == Some(entries[i].1)
    decreases |entries|
  {
    if i < |entries| - 1 {
      ExactLastOfUnique(entries[..|entries| - 1], i);
    }
  }

  /**
   * Every caller header whose name no other caller header shares (up to case) is sent
   * with the caller's value; a caller `Content-Type` so replaces the default.
   */
  lemma CallerHeaderKept(headers: seq<(string, string)>, i: nat)
    requires i < |headers|
    requires forall j | 0 <= j < |headers| && j != i :: Lower(headers[j].0) != Lower(headers[i].0)
    ensures HasHeader(FromArray(Merged(headers)), headers[i].0)
    ensures HeaderLine(FromArray(Merged(headers)), headers[i].0) == headers[i].1
  {
    var (name, value) := headers[i];
    var rest := Without(headers, ContentType);
    var first := [(ContentType, ExactLast(headers, ContentType).GetOr(ApplicationJson))];
    FromArrayReads(Merged(headers), name);
    LastValueAppend(first, rest, name);
    WithoutSubset(headers, ContentType);
    if name == ContentType {
      ExactLastOfUnique(headers, i);
      assert forall k | 0 <= k < |rest| :: Lower(rest[k].0) != Lower(name) by {
        forall k | 0 <= k < |rest|
          ensures Lower(rest[k].0) != Lower(name)
        {
          var j :| 0 <= j < |headers| && headers[j] == rest[k];
          assert rest[k].0 != ContentType;
        }
      }
      LastValueAbsent(rest, name);
    } else {
      LastValueWithoutUnique(headers, ContentType, i);
    }
  }
}
