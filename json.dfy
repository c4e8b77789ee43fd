/**
 * A parsed manifest: the values `JSON.parse` produces, and the two ways the
 * resolver looks into them — reading a named property and asking for the
 * first key `Object.keys` enumerates.
 */
module Json {
  import opened Options
  import opened JsText

  /**
   * A JSON value. An object keeps its members in document order; a key may
   * occur more than once, as JSON text allows.
   */
  datatype Json =
    | JNull
    | JBool(b: bool)
    | JNumber(literal: string)
    | JString(s: string)
    | JArray(items: seq<Json>)
    | JObject(members: seq<(string, Json)>)

  /** The four properties of a manifest the resolver reads. */
  datatype Key = NameKey | VersionKey | DescriptionKey | BinKey

  function KeyText(k: Key): string {
    match k
    case NameKey => "name"
    case VersionKey => "version"
    case DescriptionKey => "description"
    case BinKey => "bin"
  }

  /**
   * The value of member `key`; when the key is repeated, `JSON.parse` lets the
   * last occurrence overwrite the earlier ones.
   */
  function Lookup(members: seq<(string, Json)>, key: string): (r: Option<Json>)
    ensures r.None? <==> forall i :: 0 <= i < |members| ==> members[i].0 != key
    ensures r.Some? ==> exists i :: 0 <= i < |members| && members[i] == (key, r.value)
                          && forall j :: i < j < |members| ==> members[j].0 != key
  {
    if members == [] then None
    else if members[|members| - 1].0 == key then Some(members[|members| - 1].1)
    else Lookup(members[..|members| - 1], key)
  }

  /**
   * Reading property `k` of a parsed value: `undefined` unless the value is an
   * object with such a member. Arrays, strings, numbers and booleans have none
   * of the four names, neither as own nor as inherited properties.
   */
  function Property(v: Json, k: Key): Option<Json> {
    match v
    case JObject(members) => Lookup(members, KeyText(k))
    case _ => None
  }

  /** The value of `s` read as a decimal numeral. */
  function DecimalValue(s: string): nat
    requires forall i :: 0 <= i < |s| ==> IsDigit(s[i])
  {
    if s == [] then 0
    else
      assert IsDigit(s[|s| - 1]);
      10 * DecimalValue(s[..|s| - 1]) + (s[|s| - 1] as int - '0' as int)
  }

  /** The largest array index, 2^32 - 2. */
  const MaxArrayIndex: nat := 4294967294

  /**
   * A key that is an array index: the canonical decimal numeral (no leading
   * zero) of an integer from 0 to 2^32 - 2.
   */
  predicate IsArrayIndex(k: string) {
    && |k| > 0
    && (forall i :: 0 <= i < |k| ==> IsDigit(k[i]))
    && (k[0] != '0' || |k| == 1)
    && DecimalValue(k) <= MaxArrayIndex
  }

  /**
   * Whether, in the order `Object.keys` lists the keys of an object with these
   * members, the key of member `p` comes no later than the key of member `q`:
   * array indices first, in ascending numeric order, then the other keys in
   * the order they were first created.
   */
  predicate ListedNoLater(members: seq<(string, Json)>, p: int, q: int)
    requires 0 <= p < |members| && 0 <= q < |members|
  {
    if IsArrayIndex(members[p].0) then
      !IsArrayIndex(members[q].0) || DecimalValue(members[p].0) <= DecimalValue(members[q].0)
    else
      !IsArrayIndex(members[q].0) && p <= q
  }

  /** Member `p` holds a key that `Object.keys` lists no later than any other key. */
  predicate ListedFirst(members: seq<(string, Json)>, p: int)
    requires 0 <= p < |members|
  {
    forall q :: 0 <= q < |members| ==> ListedNoLater(members, p, q)
  }

  predicate NoIndexKey(members: seq<(string, Json)>) {
    forall i :: 0 <= i < |members| ==> !IsArrayIndex(members[i].0)
  }

  /** The array-index key with the least numeric value, if any key is an array index. */
  function LeastIndexKey(members: seq<(string, Json)>): (r: Option<string>)
    ensures r.None? <==> NoIndexKey(members)
    ensures r.Some? ==> exists p :: 0 <= p < |members| && members[p].0 == r.value
                          && IsArrayIndex(r.value) && ListedFirst(members, p)
  {
    if members == [] then None
    else
      var rest := LeastIndexKey(members[1..]);
      var k := members[0].0;
      NoIndexKeyCons(members);
      if !IsArrayIndex(k) || (rest.Some? && DecimalValue(rest.value) < DecimalValue(k)) then
        if rest.Some? then
          ghost var p :| 0 <= p < |members[1..]| && members[1..][p].0 == rest.value
                         && IsArrayIndex(rest.value) && ListedFirst(members[1..], p);
          ghost var p' := p + 1;
          LeastOfTailStaysLeast(members, members[1..], p', p);
          assert members[p'].0 == rest.value;
          rest
        else
          rest
      else if rest.Some? then
        ghost var p :| 0 <= p < |members[1..]| && members[1..][p].0 == rest.value
                       && IsArrayIndex(rest.value) && ListedFirst(members[1..], p);
        HeadBeatsLeastOfTail(members, members[1..], p);
        Some(k)
      else
        OnlyIndexAtHead(members);
        Some(k)
  }

  lemma NoIndexKeyCons(members: seq<(string, Json)>)
    requires |members| > 0
    ensures NoIndexKey(members) <==> !IsArrayIndex(members[0].0) && NoIndexKey(members[1..])
  {
    if !IsArrayIndex(members[0].0) && NoIndexKey(members[1..]) {
      forall i | 1 <= i < |members|
        ensures !IsArrayIndex(members[i].0)
      {
        assert members[i] == members[1..][i - 1];
      }
    }
  }

  /**
   * A least key of the tail, at `pt` in `tail` and at `p` in `members`, stays
   * least unless the head is an index no larger.
   */
  lemma LeastOfTailStaysLeast(members: seq<(string, Json)>, tail: seq<(string, Json)>, p: int, pt: int)
    requires |members| > 0 && tail == members[1..] && p == pt + 1
    requires 0 <= pt < |tail| && IsArrayIndex(tail[pt].0) && ListedFirst(tail, pt)
    requires !IsArrayIndex(members[0].0) || DecimalValue(tail[pt].0) < DecimalValue(members[0].0)
    ensures ListedFirst(members, p)
  {
    forall q | 0 <= q < |members|
      ensures ListedNoLater(members, p, q)
    {
      if q > 0 {
        assert ListedNoLater(tail, pt, q - 1);
      }
    }
  }

  /** An index head no larger than the least index of the tail comes first. */
  lemma HeadBeatsLeastOfTail(members: seq<(string, Json)>, tail: seq<(string, Json)>, pt: int)
    requires |members| > 0 && tail == members[1..]
    requires 0 <= pt < |tail| && IsArrayIndex(members[0].0) && IsArrayIndex(tail[pt].0)
    requires ListedFirst(tail, pt)
    requires DecimalValue(members[0].0) <= DecimalValue(tail[pt].0)
    ensures ListedFirst(members, 0)
  {
    forall q | 0 <= q < |members|
      ensures ListedNoLater(members, 0, q)
    {
      if q > 0 && IsArrayIndex(members[q].0) {
        assert ListedNoLater(tail, pt, q - 1);
      }
    }
  }

  /** An index head followed by no other index comes first. */
  lemma OnlyIndexAtHead(members: seq<(string, Json)>)
    requires |members| > 0 && IsArrayIndex(members[0].0) && NoIndexKey(members[1..])
    ensures ListedFirst(members, 0)
  {
    forall q | 0 < q < |members|
      ensures !IsArrayIndex(members[q].0)
    {
      assert members[q] == members[1..][q - 1];
    }
  }

  /**
   * `Object.keys(obj)[0]` for an object with these members: the key listed
   * first, or `None` for an object without members.
   */
  function FirstMemberKey(members: seq<(string, Json)>): (r: Option<string>)
    ensures r.Some? <==> |members| > 0
    ensures r.Some? ==> exists p :: 0 <= p < |members| && members[p].0 == r.value && ListedFirst(members, p)
  {
    var least := LeastIndexKey(members);
    if least.Some? then least
    else if members == [] then None
    else
      assert ListedFirst(members, 0);
      Some(members[0].0)
  }

  /**
   * `Object.keys(v)[0]` for a value whose `typeof` is "object" and which is not
   * `null`: an array lists its indices "0", "1", ... in order. `None` for every
   * other value and for an empty array or object.
   */
  function ObjectFirstKey(v: Json): Option<string> {
    match v
    case JArray(items) => if |items| > 0 then Some("0") else None
    case JObject(members) => FirstMemberKey(members)
    case _ => None
  }

  /** Appending a member under another key leaves a property read unchanged. */
  lemma LookupAppendOther(members: seq<(string, Json)>, key: string, other: string, v: Json)
    requires other != key
    ensures Lookup(members + [(other, v)], key) == Lookup(members, key)
  {
    assert (members + [(other, v)])[..|members|] == members;
  }

  /** A key that occurs once is read from its one member. */
  lemma LookupUnique(members: seq<(string, Json)>, i: int)
    requires 0 <= i < |members|
    requires forall j :: 0 <= j < |members| && j != i ==> members[j].0 != members[i].0
    ensures Lookup(members, members[i].0) == Some(members[i].1)
  {
  }

  /** A member appended under `key` is the one a read of `key` finds. */
  lemma LookupAppendSame(members: seq<(string, Json)>, key: string, v: Json)
    ensures Lookup(members + [(key, v)], key) == Some(v)
  {
  }
}
