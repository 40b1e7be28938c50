/** What a JSON var file yields, by the places of the document where a string stands (`secure-var-file-masking.ts`). */
module VarFileJson {
  import opened JsText
  import opened VarFileExtraction
  import opened VarFileMasking

  /** A place in a document: the index of an element or member at each level. */
  type Place = seq<nat>

  /** What stands at a place; the name of a member is at no place. */
  function At(node: Json, place: Place): Option<Json>
    decreases |place|
  {
    if place == [] then Some(node)
    else
      match node
      case JArray(items) => if place[0] < |items| then At(items[place[0]], place[1..]) else None
      case JObject(members) => if place[0] < |members| then At(members[place[0]].value, place[1..]) else None
      case _ => None
  }

  /** The order of the text: what comes first at the first level where two places differ. */
  predicate Earlier(a: Place, b: Place) {
    b != [] && (a == [] || a[0] < b[0] || (a[0] == b[0] && Earlier(a[1..], b[1..])))
  }

  /** The values are the strings of the document, each once, in the order of the places where they stand. */
  ghost predicate Enumerates(node: Json, places: seq<Place>, values: seq<string>) {
    && |places| == |values|
    && (forall k :: 0 <= k < |places| ==> At(node, places[k]) == Some(JString(values[k])))
    && (forall i, j :: 0 <= i < j < |places| ==> Earlier(places[i], places[j]))
    && forall place :: IsString(node, place) ==> place in places
  }

  predicate IsString(node: Json, place: Place) { At(node, place).Some? && At(node, place).value.JString? }

  /** The same for the elements of a list, counted from `from`. */
  ghost predicate EnumeratesFrom(items: seq<Json>, from: nat, places: seq<Place>, values: seq<string>) {
    && |places| == |values|
    && (forall k :: 0 <= k < |places| ==>
          && places[k] != [] && from <= places[k][0] < from + |items|
          && At(items[places[k][0] - from], places[k][1..]) == Some(JString(values[k])))
    && (forall i, j :: 0 <= i < j < |places| ==> Earlier(places[i], places[j]))
    && forall i, place :: 0 <= i < |items| && IsString(items[i], place) ==> [from + i] + place in places
  }

  function Below(first: nat, places: seq<Place>): (r: seq<Place>)
    ensures |r| == |places| && forall k :: 0 <= k < |places| ==> r[k] == [first] + places[k]
  {
    seq(|places|, k requires 0 <= k < |places| => [first] + places[k])
  }

  /** The strings of the first element, then those of the others. */
  lemma EnumeratesMore(items: seq<Json>, from: nat, first: seq<Place>, head: seq<string>, rest: seq<Place>, tail: seq<string>)
    requires items != [] && Enumerates(items[0], first, head) && EnumeratesFrom(items[1..], from + 1, rest, tail)
    ensures EnumeratesFrom(items, from, Below(from, first) + rest, head + tail)
  {
    MoreStandThere(items, from, first, head, rest, tail);
    MoreInOrder(items, from, first, head, rest, tail);
    MoreAreAll(items, from, first, head, rest, tail);
    hide Enumerates, At, Earlier, IsString;
  }

  lemma MoreStandThere(items: seq<Json>, from: nat, first: seq<Place>, head: seq<string>, rest: seq<Place>, tail: seq<string>)
    requires items != [] && Enumerates(items[0], first, head) && EnumeratesFrom(items[1..], from + 1, rest, tail)
    ensures var all := Below(from, first) + rest;
      |all| == |head + tail| && forall k :: 0 <= k < |all| ==>
        && all[k] != [] && from <= all[k][0] < from + |items|
        && At(items[all[k][0] - from], all[k][1..]) == Some(JString((head + tail)[k]))
  {
    hide At, Earlier, IsString;
    var all := Below(from, first) + rest;
    forall k | 0 <= k < |all|
      ensures all[k] != [] && from <= all[k][0] < from + |items| && At(items[all[k][0] - from], all[k][1..]) == Some(JString((head + tail)[k]))
    {
      if k < |first| {
        assert all[k] == [from] + first[k] && all[k][1..] == first[k];
      } else {
        var j := k - |first|;
        assert all[k] == rest[j] && items[1..][rest[j][0] - (from + 1)] == items[rest[j][0] - from];
      }
    }
  }

  lemma MoreInOrder(items: seq<Json>, from: nat, first: seq<Place>, head: seq<string>, rest: seq<Place>, tail: seq<string>)
    requires items != [] && Enumerates(items[0], first, head) && EnumeratesFrom(items[1..], from + 1, rest, tail)
    ensures var all := Below(from, first) + rest; forall i, j :: 0 <= i < j < |all| ==> Earlier(all[i], all[j])
  {
    hide At, IsString;
    var all := Below(from, first) + rest;
    forall i, j | 0 <= i < j < |all| ensures Earlier(all[i], all[j]) {
      if j < |first| {
        assert Earlier(first[i], first[j]) && all[i][1..] == first[i] && all[j][1..] == first[j];
      } else if i >= |first| {
        assert Earlier(rest[i - |first|], rest[j - |first|]);
      }
    }
  }

  lemma MoreAreAll(items: seq<Json>, from: nat, first: seq<Place>, head: seq<string>, rest: seq<Place>, tail: seq<string>)
    requires items != [] && Enumerates(items[0], first, head) && EnumeratesFrom(items[1..], from + 1, rest, tail)
    ensures var all := Below(from, first) + rest;
      forall i, place :: 0 <= i < |items| && IsString(items[i], place) ==> [from + i] + place in all
  {
    hide At, Earlier, IsString;
    var all := Below(from, first) + rest;
    forall i, place | 0 <= i < |items| && IsString(items[i], place) ensures [from + i] + place in all {
      if i == 0 {
        var k :| 0 <= k < |first| && first[k] == place;
        assert all[k] == [from] + place;
      } else {
        assert IsString(items[1..][i - 1], place);
        assert [from + 1 + (i - 1)] + place in rest;
      }
    }
  }

  lemma {:induction false} ItemsAreEnumerated(items: seq<Json>, from: nat) returns (places: seq<Place>)
    ensures EnumeratesFrom(items, from, places, JsonItems(items))
    decreases items
  {
    if items == [] {
      places := [];
    } else {
      var first := DocumentIsEnumerated(items[0]);
      var rest := ItemsAreEnumerated(items[1..], from + 1);
      EnumeratesMore(items, from, first, JsonStrings(items[0]), rest, JsonItems(items[1..]));
      places := Below(from, first) + rest;
    }
  }

  function ValuesOf(members: seq<Member>): (r: seq<Json>)
    ensures |r| == |members| && forall k :: 0 <= k < |members| ==> r[k] == members[k].value
  {
    seq(|members|, k requires 0 <= k < |members| => members[k].value)
  }

  lemma {:induction false} MembersAreEnumerated(members: seq<Member>, from: nat) returns (places: seq<Place>)
    ensures EnumeratesFrom(ValuesOf(members), from, places, JsonMembers(members))
    decreases members
  {
    if members == [] {
      places := [];
    } else {
      var first := DocumentIsEnumerated(members[0].value);
      var rest := MembersAreEnumerated(members[1..], from + 1);
      assert ValuesOf(members)[1..] == ValuesOf(members[1..]);
      EnumeratesMore(ValuesOf(members), from, first, JsonStrings(members[0].value), rest, JsonMembers(members[1..]));
      places := Below(from, first) + rest;
    }
  }

  lemma {:induction false} DocumentIsEnumerated(node: Json) returns (places: seq<Place>)
    ensures Enumerates(node, places, JsonStrings(node))
    decreases node
  {
    match node
    case JString(s) =>
      places := [[]];
      forall place | IsString(node, place) ensures place in places { assert place == []; }
    case JArray(items) =>
      places := ItemsAreEnumerated(items, 0);
      ListIsEnumerated(node, items, places, JsonStrings(node));
    case JObject(members) =>
      places := MembersAreEnumerated(members, 0);
      ListIsEnumerated(node, ValuesOf(members), places, JsonStrings(node));
    case JOther =>
      places := [];
      forall place: Place ensures !IsString(node, place) {}
  }

  lemma ListIsEnumerated(node: Json, items: seq<Json>, places: seq<Place>, values: seq<string>)
    requires EnumeratesFrom(items, 0, places, values)
    requires node == JArray(items) || (node.JObject? && items == ValuesOf(node.members))
    ensures Enumerates(node, places, values)
  {
    forall place | IsString(node, place) ensures place in places {
      assert place != [] && IsString(items[place[0]], place[1..]);
      assert place == [0 + place[0]] + place[1..];
    }
  }

  lemma {:induction false} EarlierIsStrict(a: Place, b: Place)
    ensures !(Earlier(a, b) && Earlier(b, a)) && !Earlier(a, a)
    decreases |a|
  {
    if a != [] && b != [] { EarlierIsStrict(a[1..], b[1..]); }
    if a != [] && b == [] { EarlierIsStrict(a[1..], a[1..]); }
  }

  /** Two enumerations agree at every index up to the k-th. */
  lemma {:induction false} EnumerationsAgree(node: Json, p: seq<Place>, v: seq<string>, q: seq<Place>, w: seq<string>, k: nat)
    requires Enumerates(node, p, v) && Enumerates(node, q, w)
    requires k < |p| || k < |q|
    ensures k < |p| && k < |q| && forall i :: 0 <= i <= k ==> p[i] == q[i]
    decreases k
  {
    if k > 0 { EnumerationsAgree(node, p, v, q, w, k - 1); }
    if k < |p| { NotBefore(node, p, v, q, w, k); }
    if k < |q| { NotBefore(node, q, w, p, v, k); }
    if p[k] != q[k] { EarlierIsStrict(p[k], q[k]); }
  }

  /** With the same places before it, the k-th place of one comes no sooner in the other. */
  lemma NotBefore(node: Json, p: seq<Place>, v: seq<string>, q: seq<Place>, w: seq<string>, k: nat)
    requires Enumerates(node, p, v) && Enumerates(node, q, w) && k < |p| && k <= |q|
    requires forall i :: 0 <= i < k ==> p[i] == q[i]
    ensures k < |q| && (p[k] == q[k] || Earlier(q[k], p[k]))
  {
    assert IsString(node, p[k]) && p[k] in q;
    var j :| 0 <= j < |q| && q[j] == p[k];
    EarlierIsStrict(p[k], p[k]);
  }

  /** So the document alone determines the list. */
  lemma EnumerationIsUnique(node: Json, p: seq<Place>, v: seq<string>, q: seq<Place>, w: seq<string>)
    requires Enumerates(node, p, v) && Enumerates(node, q, w)
    ensures v == w
  {
    if |p| > 0 { EnumerationsAgree(node, p, v, q, w, |p| - 1); }
    if |q| > 0 { EnumerationsAgree(node, p, v, q, w, |q| - 1); }
    forall k | 0 <= k < |v| ensures v[k] == w[k] { assert p[k] == q[k]; }
  }

  /**
   A file whose trimmed text starts like JSON and parses yields exactly the strings that stand at a place of the document,
   each once and in order; every other file is read line by line.
   */
  lemma JsonIsExtractedExactly(parse: string -> Option<Json>, content: string)
    ensures var trimmed, values := Trim(content), ExtractSpec(parse, content);
      if trimmed != "" && trimmed[0] in "{[" && parse(trimmed).Some?
      then exists places :: Enumerates(parse(trimmed).value, places, values)
      else values == ExtractLines(Split(content, '\n'))
  {
    hide Trim, Split, Enumerates, ExtractLines, JsonStrings;
    var trimmed := Trim(content);
    assert "{" <= trimmed <==> trimmed != "" && trimmed[0] == '{';
    assert "[" <= trimmed <==> trimmed != "" && trimmed[0] == '[';
    if trimmed != "" && trimmed[0] in "{[" && parse(trimmed).Some? {
      var places := DocumentIsEnumerated(parse(trimmed).value);
      assert ExtractSpec(parse, content) == JsonStrings(parse(trimmed).value);
    }
  }

  /** End to end: the long trimmed lines of those strings are what is submitted to the masker. */
  lemma JsonStringsAreSubmitted(parse: string -> Option<Json>, content: string, t: string)
    requires var trimmed := Trim(content); trimmed != "" && trimmed[0] in "{[" && parse(trimmed).Some?
    ensures t in Secrets(ExtractSpec(parse, content)) <==>
      |t| >= 4 && exists place :: IsString(parse(Trim(content)).value, place) && IsTrimmedLine(SplitLines(At(parse(Trim(content)).value, place).value.s), t)
  {
    hide Trim, ExtractSpec, Secrets, At, IsTrimmedLine, SplitLines;
    var doc, values := parse(Trim(content)).value, ExtractSpec(parse, content);
    JsonIsExtractedExactly(parse, content);
    SecretsExact(values, t);
    var places :| Enumerates(doc, places, values);
    if IsLineOf(values, t) {
      var i :| 0 <= i < |values| && IsTrimmedLine(SplitLines(values[i]), t);
      assert IsString(doc, places[i]);
    }
    if place :| IsString(doc, place) && IsTrimmedLine(SplitLines(At(doc, place).value.s), t) {
      var i :| 0 <= i < |places| && places[i] == place;
    }
  }
}
