/**
 * Construction of the typed channel records from the input header: the JSON
 * header's topics and values, or the bare CSV header row.
 */
module Input {
  import opened Outcome
  import opened Seqs
  import opened Util
  import opened Attributes

  /** A topic as declared in the JSON header: a name, a unit and directive tokens. */
  datatype JsonTopic = JsonTopic(name: string, unit: string, attrs: seq<string>)

  /** A free-standing name/value pair as declared in the JSON header. */
  datatype JsonValue = JsonValue(name: string, value: string)

  /** The decoded JSON header line. */
  datatype JsonHeader = JsonHeader(topics: seq<JsonTopic>, values: seq<JsonValue>)

  /** A channel: its full name split into folder and base, a unit, directives and samples. */
  datatype Topic = Topic(
    name: string, nameBase: string, nameFolder: string,
    unit: string, attrs: seq<Attribute>, data: seq<Float64>)

  /** A free-standing value with its name split into folder and base. */
  datatype Value = Value(name: string, nameBase: string, nameFolder: string, value: string)

  /**
   * A text channel.  Only the fields that grouping and rendering read are
   * kept: the name, its two halves, and the display lines once produced.
   */
  datatype Log = Log(name: string, nameBase: string, nameFolder: string, lines: Option<seq<string>>)

  /** Builds a value record, splitting its name. */
  function ValueFrom(v: JsonValue): (r: Value)
    ensures r.name == v.name && r.value == v.value
    ensures SplitsAs(r.name, r.nameFolder, r.nameBase)
  {
    var (folder, base) := SplitName(v.name);
    Value(v.name, base, folder, v.value)
  }

  /** The directives spelled by the recognised tokens, in token order; the others are dropped. */
  function Parsed(tokens: seq<string>): seq<Attribute> {
    if tokens == [] then []
    else
      var p := Parsed(tokens[..|tokens| - 1]);
      match Parse(tokens[|tokens| - 1])
      case Ok(a) => p + [a]
      case Err(_) => p
  }

  /** A directive is parsed exactly when some token spells it. */
  lemma {:induction false} ParsedMembers(tokens: seq<string>)
    ensures forall a :: a in Parsed(tokens) <==> Token(a) in tokens
  {
    if tokens != [] {
      var q, t := tokens[..|tokens| - 1], tokens[|tokens| - 1];
      assert tokens == q + [t];
      ParsedMembers(q);
    }
  }

  /**
   * Collects a topic's directives: unrecognised tokens are skipped (with a
   * warning), and a directive already collected is skipped (with a warning),
   * so the first occurrence of each is kept.
   */
  method GetAttrs(topic: JsonTopic) returns (attrs: seq<Attribute>)
    ensures attrs == Distinct(Parsed(topic.attrs))
  {
    var tokens := topic.attrs;
    attrs := [];
    for i := 0 to |tokens|
      invariant attrs == Distinct(Parsed(tokens[..i]))
    {
      var attr := Parse(tokens[i]);
      ghost var p := Parsed(tokens[..i]);
      assert tokens[..i + 1][..i] == tokens[..i];
      if attr.Err? {
        continue;
      }
      assert Parsed(tokens[..i + 1]) == p + [attr.value];
      assert (p + [attr.value])[..|p|] == p;
      if attr.value in attrs {
        continue;
      }
      attrs := attrs + [attr.value];
    }
    assert tokens[..|tokens|] == tokens;
  }

  /**
   * What the collected directives are: no directive twice, exactly the
   * directives some token spells, and ordered by where each is first spelled.
   */
  lemma {:induction false} AttrsSpec(tokens: seq<string>)
    ensures NoDup(Distinct(Parsed(tokens)))
    ensures forall a :: a in Distinct(Parsed(tokens)) <==> Token(a) in tokens
    ensures forall i, j :: 0 <= i < j < |Distinct(Parsed(tokens))| ==>
              FirstIndex(tokens, Token(Distinct(Parsed(tokens))[i])) <
              FirstIndex(tokens, Token(Distinct(Parsed(tokens))[j]))
  {
    var p := Parsed(tokens);
    var d := Distinct(p);
    DistinctSpec(p);
    ParsedMembers(tokens);
    forall i, j | 0 <= i < j < |d|
      ensures FirstIndex(tokens, Token(d[i])) < FirstIndex(tokens, Token(d[j]))
    {
      FirstSpellingOrder(tokens, d[i], d[j]);
    }
  }

  /** Directives are first parsed in the order their spellings first occur. */
  lemma {:induction false} FirstSpellingOrder(tokens: seq<string>, a: Attribute, b: Attribute)
    requires a in Parsed(tokens) && b in Parsed(tokens)
    requires Token(a) in tokens && Token(b) in tokens
    ensures FirstIndex(Parsed(tokens), a) < FirstIndex(Parsed(tokens), b) <==>
            FirstIndex(tokens, Token(a)) < FirstIndex(tokens, Token(b))
  {
    var q := tokens[..|tokens| - 1];
    var t := tokens[|tokens| - 1];
    var pq := Parsed(q);
    assert tokens == q + [t];
    ParsedMembers(tokens);
    ParsedMembers(q);
    var ina, inb := Token(a) in q, Token(b) in q;
    if ina { FirstIndexAppend(q, [t], Token(a)); }
    else { assert Token(a) == t; FirstIndexNew(q, t); }
    if inb { FirstIndexAppend(q, [t], Token(b)); }
    else { assert Token(b) == t; FirstIndexNew(q, t); }
    if Parse(t).Ok? {
      var c := Parse(t).value;
      assert Parsed(tokens) == pq + [c];
      if a in pq { FirstIndexAppend(pq, [c], a); } else { FirstIndexNew(pq, c); }
      if b in pq { FirstIndexAppend(pq, [c], b); } else { FirstIndexNew(pq, c); }
    } else {
      assert Parsed(tokens) == pq;
    }
    if ina && inb {
      FirstSpellingOrder(q, a, b);
    }
  }

  /**
   * Builds a topic record from its JSON declaration: the name is split, an
   * empty unit becomes the unitless sentinel, the directives are collected
   * as `GetAttrs` does, and no sample is recorded yet.
   */
  function TopicFrom(t: JsonTopic): (r: Topic)
    ensures r.name == t.name && SplitsAs(r.name, r.nameFolder, r.nameBase)
    ensures t.unit == "" ==> r.unit == Unitless
    ensures t.unit != "" ==> r.unit == t.unit
    ensures r.attrs == Distinct(Parsed(t.attrs))
    ensures r.data == []
  {
    var (folder, base) := SplitName(t.name);
    var unit := if t.unit == "" then Unitless else t.unit;
    Topic(t.name, base, folder, unit, Distinct(Parsed(t.attrs)), [])
  }

  /** The first value already collected under `name`, if any (`Iterator::find`). */
  function FindByName(values: seq<Value>, name: string): (r: Option<nat>)
    ensures r.Some? ==> r.value < |values| && values[r.value].name == name
    ensures r.Some? ==> forall k :: 0 <= k < r.value ==> values[k].name != name
    ensures r.None? ==> forall k :: 0 <= k < |values| ==> values[k].name != name
  {
    if values == [] then None
    else if values[0].name == name then Some(0)
    else
      match FindByName(values[1..], name)
      case None => None
      case Some(k) => Some(k + 1)
  }

  /** Entries that share a name also share a value. */
  ghost predicate Consistent(vs: seq<JsonValue>) {
    forall i, j :: 0 <= i < j < |vs| && vs[i].name == vs[j].name ==> vs[i].value == vs[j].value
  }

  /** Entries `vs[..n]` that share a name also share a value. */
  ghost predicate ConsistentUpTo(vs: seq<JsonValue>, n: nat)
    requires n <= |vs|
  {
    forall a, b :: 0 <= a < b < n && vs[a].name == vs[b].name ==> vs[a].value == vs[b].value
  }

  /** A collected entry with the name of `vs[i]` but another value is a conflict. */
  lemma ConflictingValue(vs: seq<JsonValue>, i: nat, k: nat)
    requires i < |vs| && k < |Distinct(vs[..i])|
    requires Distinct(vs[..i])[k].name == vs[i].name && Distinct(vs[..i])[k].value != vs[i].value
    ensures exists a :: 0 <= a < i && vs[a].name == vs[i].name && vs[a].value != vs[i].value
  {
    DistinctSpec(vs[..i]);
    var d := Distinct(vs[..i]);
    assert d[k] in vs[..i];
  }

  /** An entry equal to one already collected leaves the collection as it was. */
  lemma RepeatedValue(vs: seq<JsonValue>, i: nat, k: nat)
    requires i < |vs| && ConsistentUpTo(vs, i) && k < |Distinct(vs[..i])|
    requires Distinct(vs[..i])[k] == vs[i]
    ensures Distinct(vs[..i + 1]) == Distinct(vs[..i])
    ensures ConsistentUpTo(vs, i + 1)
  {
    DistinctSpec(vs[..i]);
    var d := Distinct(vs[..i]);
    assert vs[..i + 1][..i] == vs[..i];
    assert d[k] in vs[..i];
    var q :| 0 <= q < i && vs[q] == d[k];
    forall a | 0 <= a < i && vs[a].name == vs[i].name ensures vs[a].value == vs[i].value {
      if a < q { assert vs[a].value == vs[q].value; }
      else if q < a { assert vs[q].value == vs[a].value; }
    }
  }

  /** An entry whose name was not collected yet is appended, and conflicts with nothing. */
  lemma NewValue(vs: seq<JsonValue>, i: nat)
    requires i < |vs| && ConsistentUpTo(vs, i)
    requires forall k :: 0 <= k < |Distinct(vs[..i])| ==> Distinct(vs[..i])[k].name != vs[i].name
    ensures Distinct(vs[..i + 1]) == Distinct(vs[..i]) + [vs[i]]
    ensures ConsistentUpTo(vs, i + 1)
  {
    DistinctSpec(vs[..i]);
    var d := Distinct(vs[..i]);
    assert vs[..i + 1][..i] == vs[..i];
    forall a | 0 <= a < i ensures vs[a].name != vs[i].name {
      assert vs[a] in vs[..i];
      var k :| 0 <= k < |d| && d[k] == vs[a];
    }
    assert vs[i] !in d;
  }

  /**
   * Collects the header's values.  A repeated name with a different value
   * aborts; a repeated name with the same value is skipped (with a warning).
   * So the run succeeds exactly when names determine values, and then yields
   * one record per distinct entry, in first-occurrence order, under distinct
   * names.
   */
  method GetValues(header: JsonHeader) returns (r: Result<seq<Value>, Failure>)
    ensures r.Ok? <==> Consistent(header.values)
    ensures r.Ok? ==> |r.value| == |Distinct(header.values)|
    ensures r.Ok? ==> forall k :: 0 <= k < |r.value| ==> r.value[k] == ValueFrom(Distinct(header.values)[k])
    ensures r.Ok? ==> forall k, l :: 0 <= k < l < |r.value| ==> r.value[k].name != r.value[l].name
    ensures r.Err? ==>
              exists i, j :: 0 <= i < j < |header.values| &&
                header.values[i].name == header.values[j].name &&
                header.values[i].value != header.values[j].value &&
                ConsistentUpTo(header.values, j) &&
                r.error == DuplicateValue(header.values[j].name)
  {
    var vs := header.values;
    var values: seq<Value> := [];
    for i := 0 to |vs|
      invariant ConsistentUpTo(vs, i)
      invariant |values| == |Distinct(vs[..i])|
      invariant forall k :: 0 <= k < |values| ==> values[k] == ValueFrom(Distinct(vs[..i])[k])
      invariant forall k, l :: 0 <= k < l < |values| ==> values[k].name != values[l].name
    {
      var value := vs[i];
      var found := FindByName(values, value.name);
      if found.Some? {
        var duplicate := values[found.value];
        if duplicate.value != value.value {
          ConflictingValue(vs, i, found.value);
          return Err(DuplicateValue(value.name));
        }
        RepeatedValue(vs, i, found.value);
        continue;
      }
      NewValue(vs, i);
      values := values + [ValueFrom(value)];
    }
    assert vs[..|vs|] == vs;
    return Ok(values);
  }

  /** No two topics share a name. */
  ghost predicate UniqueNames(ts: seq<JsonTopic>) {
    forall i, j :: 0 <= i < j < |ts| ==> ts[i].name != ts[j].name
  }

  /** The record at position `k` is the one built from declaration `k`. */
  ghost predicate BuiltFrom(topics: seq<Topic>, ts: seq<JsonTopic>, k: nat) {
    k < |topics| && k < |ts| && topics[k] == TopicFrom(ts[k])
  }

  /** Appending the record of the next declaration keeps every record in place. */
  lemma BuiltSnoc(topics: seq<Topic>, ts: seq<JsonTopic>, i: nat)
    requires |topics| == i < |ts|
    requires forall k :: 0 <= k < i ==> BuiltFrom(topics, ts, k)
    ensures forall k :: 0 <= k <= i ==> BuiltFrom(topics + [TopicFrom(ts[i])], ts, k)
  {
    forall k | 0 <= k <= i
      ensures BuiltFrom(topics + [TopicFrom(ts[i])], ts, k)
    {
      if k < i {
        assert BuiltFrom(topics, ts, k);
      }
    }
  }

  /** Two declarations under one name break uniqueness. */
  lemma RepeatedTopic(ts: seq<JsonTopic>, k: nat, i: nat)
    requires k < i < |ts| && ts[k].name == ts[i].name
    ensures !UniqueNames(ts)
    ensures exists a :: 0 <= a < i && ts[a].name == ts[i].name
  {
  }

  /**
   * Builds the topics of the JSON header in order.  A topic whose name was
   * already seen aborts; otherwise there is one record per declaration.
   */
  method GetTopics(header: JsonHeader) returns (r: Result<seq<Topic>, Failure>)
    ensures r.Ok? <==> UniqueNames(header.topics)
    ensures r.Ok? ==> |r.value| == |header.topics|
    ensures r.Ok? ==> forall k :: 0 <= k < |r.value| ==> r.value[k] == TopicFrom(header.topics[k])
    ensures r.Err? ==>
              exists j :: 0 <= j < |header.topics| &&
                r.error == DuplicateJsonTopic(header.topics[j].name) &&
                (exists i :: 0 <= i < j && header.topics[i].name == header.topics[j].name) &&
                forall a, b :: 0 <= a < b < j ==> header.topics[a].name != header.topics[b].name
  {
    var ts := header.topics;
    var topics: seq<Topic> := [];
    for i := 0 to |ts|
      invariant forall a, b :: 0 <= a < b < i ==> ts[a].name != ts[b].name
      invariant |topics| == i
      invariant forall k :: 0 <= k < i ==> topics[k].name == ts[k].name
      invariant forall k :: 0 <= k < i ==> BuiltFrom(topics, ts, k)
    {
      if exists k :: 0 <= k < |topics| && topics[k].name == ts[i].name {
        ghost var k :| 0 <= k < |topics| && topics[k].name == ts[i].name;
        RepeatedTopic(ts, k, i);
        return Err(DuplicateJsonTopic(ts[i].name));
      }
      BuiltSnoc(topics, ts, i);
      topics := topics + [TopicFrom(ts[i])];
    }
    forall k | 0 <= k < |topics|
      ensures topics[k] == TopicFrom(ts[k])
    {
      assert BuiltFrom(topics, ts, k);
    }
    return Ok(topics);
  }

  /**
   * Builds the topics of a header-less CSV file from its column names: each
   * gets the unitless sentinel, no directive and no sample yet.  A repeated
   * column name aborts.  (A name with exterior whitespace only draws a
   * warning and is kept as it is.)
   */
  method GetTopicsFromCsv(header: seq<string>) returns (r: Result<seq<Topic>, Failure>)
    ensures r.Ok? <==> NoDup(header)
    ensures r.Ok? ==> |r.value| == |header|
    ensures r.Ok? ==> forall k :: 0 <= k < |r.value| ==>
              r.value[k].name == header[k] &&
              SplitsAs(r.value[k].name, r.value[k].nameFolder, r.value[k].nameBase) &&
              r.value[k].unit == Unitless && r.value[k].attrs == [] && r.value[k].data == []
    ensures r.Err? ==>
              exists j :: 0 <= j < |header| &&
                r.error == DuplicateCsvTopic(header[j]) && header[j] in header[..j] &&
                NoDup(header[..j])
  {
    var topics: seq<Topic> := [];
    for i := 0 to |header|
      invariant NoDup(header[..i])
      invariant |topics| == i
      invariant forall k :: 0 <= k < i ==>
                  topics[k].name == header[k] &&
                  SplitsAs(topics[k].name, topics[k].nameFolder, topics[k].nameBase) &&
                  topics[k].unit == Unitless && topics[k].attrs == [] && topics[k].data == []
    {
      var name := header[i];
      if exists k :: 0 <= k < |topics| && topics[k].name == name {
        return Err(DuplicateCsvTopic(name));
      }
      var (folder, base) := SplitName(name);
      topics := topics + [Topic(name, base, folder, Unitless, [], [])];
    }
    assert header[..|header|] == header;
    return Ok(topics);
  }
}
