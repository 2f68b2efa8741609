/** The materials sidecar: node id to output bytes, as base64url text inside JSON inside base64url. */
module Materials {
  import opened Bytes
  import opened Json
  import opened Core
  import Base64Url

  // ---------------------------------------------------------------- ordered maps

  /** Byte-wise lexicographic order: how Rust compares strings. */
  predicate Less(a: bytes, b: bytes) {
    b != [] && (a == [] || a[0] < b[0] || (a[0] == b[0] && Less(a[1..], b[1..])))
  }

  lemma {:induction false} LessTotal(a: bytes, b: bytes)
    ensures Less(a, b) || a == b || Less(b, a)
    ensures Less(a, b) ==> a != b && !Less(b, a)
  {
    if a != [] && b != [] && a[0] == b[0] {
      LessTotal(a[1..], b[1..]);
      assert a == [a[0]] + a[1..] && b == [b[0]] + b[1..];
    }
  }

  lemma {:induction false} LessTransitive(a: bytes, b: bytes, c: bytes)
    requires Less(a, b) && Less(b, c)
    ensures Less(a, c)
  {
    if a != [] && a[0] == b[0] == c[0] {
      LessTransitive(a[1..], b[1..], c[1..]);
    }
  }

  /** The order of the first difference, a text before its continuations. */
  lemma {:induction false} LessIff(a: bytes, b: bytes)
    ensures Less(a, b) <==> exists k: nat :: FirstDifference(a, b, k)
  {
    if a != [] && b != [] && a[0] == b[0] {
      LessIff(a[1..], b[1..]);
      if Less(a[1..], b[1..]) {
        var k: nat :| FirstDifference(a[1..], b[1..], k);
        assert a[..k + 1] == [a[0]] + a[1..][..k] && b[..k + 1] == [b[0]] + b[1..][..k];
        assert FirstDifference(a, b, k + 1);
      }
      if k: nat :| FirstDifference(a, b, k) {
        assert k > 0;
        assert a[1..][..k - 1] == a[..k][1..] && b[1..][..k - 1] == b[..k][1..];
        assert FirstDifference(a[1..], b[1..], k - 1);
      }
    } else if Less(a, b) {
      assert FirstDifference(a, b, 0);
    }
  }

  predicate FirstDifference(a: bytes, b: bytes, k: nat) {
    k <= |a| && k < |b| && a[..k] == b[..k] && (k == |a| || a[k] < b[k])
  }

  datatype Entry<+V> = Entry(key: bytes, value: V)

  /** A `BTreeMap` keyed by strings is its entries in ascending key order. */
  predicate Sorted<V>(m: seq<Entry<V>>) {
    forall i, j | 0 <= i < j < |m| :: Less(m[i].key, m[j].key)
  }

  /** The finite map that the entries stand for. */
  function AsMap<V>(m: seq<Entry<V>>): map<bytes, V> {
    if m == [] then map[] else AsMap(m[..|m| - 1])[m[|m| - 1].key := m[|m| - 1].value]
  }

  lemma {:induction false} AsMapKeys<V>(m: seq<Entry<V>>)
    ensures forall k :: k in AsMap(m) <==> exists i | 0 <= i < |m| :: m[i].key == k
  {
    if m != [] {
      var n := |m| - 1;
      AsMapKeys(m[..n]);
      forall k | exists i | 0 <= i < |m| :: m[i].key == k ensures k in AsMap(m) {
        var i :| 0 <= i < |m| && m[i].key == k;
        assert i < n ==> m[..n][i].key == k;
      }
    }
  }

  lemma {:induction false} AsMapAt<V>(m: seq<Entry<V>>, i: nat)
    requires Sorted(m) && i < |m|
    ensures m[i].key in AsMap(m) && AsMap(m)[m[i].key] == m[i].value
  {
    var n := |m| - 1;
    if i < n {
      AsMapAt(m[..n], i);
      LessTotal(m[i].key, m[n].key);
    }
  }

  /** `BTreeMap::insert`: in key order, replacing the value of a key already present. */
  function Insert<V>(m: seq<Entry<V>>, k: bytes, v: V): seq<Entry<V>> {
    if m == [] || Less(k, m[0].key) then [Entry(k, v)] + m
    else if m[0].key == k then [Entry(k, v)] + m[1..]
    else [m[0]] + Insert(m[1..], k, v)
  }

  lemma {:induction false} InsertAsMap<V>(m: seq<Entry<V>>, k: bytes, v: V)
    requires Sorted(m)
    ensures Sorted(Insert(m, k, v))
    ensures forall e | e in Insert(m, k, v) :: e == Entry(k, v) || (e in m && e.key != k)
    ensures forall e | e in m && e.key != k :: e in Insert(m, k, v)
    ensures Entry(k, v) in Insert(m, k, v)
  {
    var r := Insert(m, k, v);
    if m != [] {
      LessTotal(k, m[0].key);
      if Less(k, m[0].key) {
        forall i | 0 <= i < |m| ensures Less(k, m[i].key) && m[i].key != k {
          if i > 0 {
            LessTransitive(k, m[0].key, m[i].key);
          }
          LessTotal(k, m[i].key);
        }
      } else if m[0].key == k {
        forall i | 1 <= i < |m| ensures m[i].key != k {
          LessTotal(m[0].key, m[i].key);
        }
        assert forall e | e in m :: e == m[0] || e in m[1..];
      } else {
        var t := m[1..];
        InsertAsMap(t, k, v);
        var s := Insert(t, k, v);
        assert r == [m[0]] + s;
        assert forall e | e in m :: e == m[0] || e in t;
        assert forall i | 0 <= i < |s| :: s[i] in s && Less(m[0].key, s[i].key);
      }
    }
  }

  /** The map has exactly the pairs that are entries. */
  lemma AsMapIff<V>(m: seq<Entry<V>>, k: bytes, v: V)
    requires Sorted(m)
    ensures k in AsMap(m) && AsMap(m)[k] == v <==> Entry(k, v) in m
  {
    AsMapKeys(m);
    if Entry(k, v) in m {
      var i :| 0 <= i < |m| && m[i] == Entry(k, v);
      AsMapAt(m, i);
    }
    if k in AsMap(m) {
      var i :| 0 <= i < |m| && m[i].key == k;
      AsMapAt(m, i);
    }
  }

  /** Inserting into the ordered entries is updating the map. */
  lemma InsertIsUpdate<V>(m: seq<Entry<V>>, k: bytes, v: V)
    requires Sorted(m)
    ensures Sorted(Insert(m, k, v)) && AsMap(Insert(m, k, v)) == AsMap(m)[k := v]
  {
    var r := Insert(m, k, v);
    InsertAsMap(m, k, v);
    forall x | x in AsMap(r) ensures x in AsMap(m)[k := v] && AsMap(r)[x] == AsMap(m)[k := v][x] {
      AsMapIff(r, x, AsMap(r)[x]);
      AsMapIff(m, x, AsMap(r)[x]);
    }
    forall x | x in AsMap(m)[k := v] ensures x in AsMap(r) {
      var y := AsMap(m)[k := v][x];
      AsMapIff(m, x, y);
      AsMapIff(r, x, y);
    }
  }

  /** Every finite map is the meaning of some ordered entries, so a law about all sorted entries is
      a law about all maps. */
  lemma {:induction false} EveryMap<V>(m: map<bytes, V>) returns (e: seq<Entry<V>>)
    ensures Sorted(e) && AsMap(e) == m
    decreases |m|
  {
    if m == map[] {
      e := [];
    } else {
      var k :| k in m;
      var rest := m - {k};
      assert rest.Keys == m.Keys - {k};
      var t := EveryMap(rest);
      e := Insert(t, k, m[k]);
      InsertIsUpdate(t, k, m[k]);
      assert rest[k := m[k]] == m;
    }
  }

  lemma {:induction false} InsertLast<V>(m: seq<Entry<V>>, k: bytes, v: V)
    requires forall i | 0 <= i < |m| :: Less(m[i].key, k)
    ensures Insert(m, k, v) == m + [Entry(k, v)]
  {
    if m != [] {
      LessTotal(m[0].key, k);
      InsertLast(m[1..], k, v);
      assert m == [m[0]] + m[1..];
    }
  }

  // ---------------------------------------------------------------- the header

  function EncodedMembers(m: seq<Entry<bytes>>): seq<Member> {
    if m == [] then []
    else [Member(m[0].key, Str(Base64Url.Encode(m[0].value)))] + EncodedMembers(m[1..])
  }

  /** `materials_to_header`. */
  function ToHeader(m: seq<Entry<bytes>>): bytes
    requires Sorted(m)
  {
    Base64Url.Encode(Print(Obj(EncodedMembers(m))))
  }

  /** A JSON object read into an ordered map of strings: later members replace earlier ones. */
  function ReadMembers(members: seq<Member>): Option<seq<Entry<bytes>>> {
    if members == [] then Some([])
    else
      var n := |members| - 1;
      var m := ReadMembers(members[..n]);
      if m.None? || !members[n].value.Str? then None
      else Some(Insert(m.value, members[n].key, members[n].value.s))
  }

  function DecodeValues(m: seq<Entry<bytes>>): Option<seq<Entry<bytes>>> {
    if m == [] then Some([])
    else
      var b, t := Base64Url.Decode(Trim(m[0].value)), DecodeValues(m[1..]);
      if b.None? || t.None? then None else Some([Entry(m[0].key, b.value)] + t.value)
  }

  /** `materials_from_header`. */
  function FromHeader(value: bytes): Result<seq<Entry<bytes>>, VerifyError> {
    var text := Base64Url.Decode(Trim(value));
    if text.None? then Err(Malformed("base64"))
    else
      var j := FromSlice(text.value);
      if j.None? || !j.value.Obj? then Err(Malformed("json"))
      else
        var encoded := ReadMembers(j.value.members);
        if encoded.None? then Err(Malformed("json"))
        else
          var m := DecodeValues(encoded.value);
          if m.None? then Err(Malformed("base64")) else Ok(m.value)
  }

  // ---------------------------------------------------------------- round trip

  function EncodeValues(m: seq<Entry<bytes>>): seq<Entry<bytes>> {
    seq(|m|, i requires 0 <= i < |m| => Entry(m[i].key, Base64Url.Encode(m[i].value)))
  }

  lemma {:induction false} EncodedMembersAt(m: seq<Entry<bytes>>)
    ensures |EncodedMembers(m)| == |m|
    ensures forall i | 0 <= i < |m| ::
              EncodedMembers(m)[i] == Member(m[i].key, Str(Base64Url.Encode(m[i].value)))
  {
    if m != [] {
      EncodedMembersAt(m[1..]);
    }
  }

  lemma {:induction false} ReadSorted(m: seq<Entry<bytes>>, members: seq<Member>)
    requires Sorted(m) && |members| == |m|
    requires forall i | 0 <= i < |m| :: members[i] == Member(m[i].key, Str(m[i].value))
    ensures ReadMembers(members) == Some(m)
  {
    if m != [] {
      var n := |m| - 1;
      ReadSorted(m[..n], members[..n]);
      InsertLast(m[..n], m[n].key, m[n].value);
      assert m == m[..n] + [m[n]];
    }
  }

  lemma TrimEncoded(b: bytes)
    ensures Trim(Base64Url.Encode(b)) == Base64Url.Encode(b)
  {
    TrimHeader([], b, []);
    assert [] + (Base64Url.Encode(b) + []) == Base64Url.Encode(b);
  }

  lemma EncodeValuesHead(m: seq<Entry<bytes>>)
    requires m != []
    ensures EncodeValues(m) == [Entry(m[0].key, Base64Url.Encode(m[0].value))] + EncodeValues(m[1..])
  {
  }

  lemma DecodeValuesHead(k: bytes, v: bytes, m: seq<Entry<bytes>>)
    requires DecodeValues(EncodeValues(m)) == Some(m)
    ensures DecodeValues([Entry(k, Base64Url.Encode(v))] + EncodeValues(m)) == Some([Entry(k, v)] + m)
  {
    var e := [Entry(k, Base64Url.Encode(v))] + EncodeValues(m);
    assert e[1..] == EncodeValues(m);
    Base64Url.DecodeEncode(v);
    TrimEncoded(v);
  }

  lemma {:induction false} DecodeValuesRoundTrip(m: seq<Entry<bytes>>)
    ensures DecodeValues(EncodeValues(m)) == Some(m)
  {
    if m != [] {
      DecodeValuesRoundTrip(m[1..]);
      EncodeValuesHead(m);
      DecodeValuesHead(m[0].key, m[0].value, m[1..]);
      assert m == [m[0]] + m[1..];
    }
  }

  lemma ReadEncoded(m: seq<Entry<bytes>>)
    requires Sorted(m)
    ensures ReadMembers(EncodedMembers(m)) == Some(EncodeValues(m))
  {
    EncodedMembersAt(m);
    ReadSorted(EncodeValues(m), EncodedMembers(m));
  }

  /** A materials header reads back as the map it was made from, whatever ids and bytes it holds
      and whatever whitespace surrounds it. */
  lemma HeaderRoundTrip(m: seq<Entry<bytes>>, before: bytes, after: bytes)
    requires Sorted(m) && IsWhitespace(before) && IsWhitespace(after)
    ensures FromHeader(before + (ToHeader(m) + after)) == Ok(m)
  {
    var members := EncodedMembers(m);
    TrimHeader(before, Print(Obj(members)), after);
    Base64Url.DecodeEncode(Print(Obj(members)));
    RoundTrip(Obj(members));
    ReadEncoded(m);
    DecodeValuesRoundTrip(m);
  }

  /** Every finite map from ids to byte strings has a header, and the header reads back as the map. */
  lemma EveryMapRoundTrips(m: map<bytes, bytes>) returns (e: seq<Entry<bytes>>)
    ensures Sorted(e) && AsMap(e) == m
    ensures FromHeader(ToHeader(e)).Ok? && AsMap(FromHeader(ToHeader(e)).value) == m
  {
    e := EveryMap(m);
    HeaderRoundTrip(e, [], []);
    assert [] + (ToHeader(e) + []) == ToHeader(e);
  }

  lemma {:induction false} ReadMembersSorted(members: seq<Member>)
    requires ReadMembers(members).Some?
    ensures Sorted(ReadMembers(members).value)
  {
    if members != [] {
      var n := |members| - 1;
      ReadMembersSorted(members[..n]);
      InsertAsMap(ReadMembers(members[..n]).value, members[n].key, members[n].value.s);
    }
  }

  function LastValues(members: seq<Member>): map<bytes, bytes>
    requires forall m | m in members :: m.value.Str?
  {
    if members == [] then map[]
    else LastValues(members[..|members| - 1])[members[|members| - 1].key := members[|members| - 1].value.s]
  }

  /** An object whose values are all strings, and no other, is read, as the map of each key's last value. */
  lemma {:induction false} ReadKeepsLast(members: seq<Member>)
    ensures ReadMembers(members).Some? <==> forall m | m in members :: m.value.Str?
    ensures ReadMembers(members).Some? ==> AsMap(ReadMembers(members).value) == LastValues(members)
  {
    if members != [] {
      var n := |members| - 1;
      var init := members[..n];
      ReadKeepsLast(init);
      assert members == init + [members[n]];
      if ReadMembers(members).Some? {
        ReadMembersSorted(init);
        InsertIsUpdate(ReadMembers(init).value, members[n].key, members[n].value.s);
      }
    }
  }

  lemma {:induction false} DecodeValuesKeys(m: seq<Entry<bytes>>)
    requires DecodeValues(m).Some?
    ensures |DecodeValues(m).value| == |m|
    ensures forall i | 0 <= i < |m| :: DecodeValues(m).value[i].key == m[i].key
  {
    if m != [] {
      DecodeValuesKeys(m[1..]);
    }
  }

  /** Whatever a seller sends, what is read is a map: each id once. */
  lemma FromHeaderSorted(value: bytes)
    requires FromHeader(value).Ok?
    ensures Sorted(FromHeader(value).value)
  {
    var j := FromSlice(Base64Url.Decode(Trim(value)).value).value;
    ReadMembersSorted(j.members);
    DecodeValuesKeys(ReadMembers(j.members).value);
  }

  // ---------------------------------------------------------------- the text itself

  /** The entries as members of an object: the id, a colon, the base64url form of the bytes in quotes. */
  function EntriesText(m: seq<Entry<bytes>>): bytes {
    if m == [] then []
    else
      (PrintString(m[0].key) + (Ascii(":") + (Ascii("\"") + (Base64Url.Encode(m[0].value) + Ascii("\"")))))
      + if |m| == 1 then [] else Ascii(",") + EntriesText(m[1..])
  }

  lemma CharsUnescaped(b: bytes)
    ensures EscapeAll(Base64Url.Encode(b)) == Base64Url.Encode(b)
  {
    Base64Url.EncodeIsGraphic(b);
    UnescapedIs(Base64Url.Encode(b));
  }

  lemma {:induction false} EntriesPrint(m: seq<Entry<bytes>>)
    ensures PrintMembers(EncodedMembers(m)) == EntriesText(m) && |EncodedMembers(m)| == |m|
  {
    if m != [] {
      var ms := EncodedMembers(m);
      EntriesPrint(m[1..]);
      assert ms[1..] == EncodedMembers(m[1..]);
      CharsUnescaped(m[0].value);
      StringIs(Base64Url.Encode(m[0].value), 0);
      PrintIs(true, 0, Base64Url.Encode(m[0].value), [], ms);
    }
  }

  /** What is inside a materials header. */
  lemma HeaderText(m: seq<Entry<bytes>>)
    requires Sorted(m)
    ensures ToHeader(m) == Base64Url.Encode(Ascii("{") + (EntriesText(m) + Ascii("}")))
  {
    EntriesPrint(m);
    PrintIs(true, 0, [], [], EncodedMembers(m));
  }

  lemma {:induction false} DecodeValuesIff(e: seq<Entry<bytes>>, m: seq<Entry<bytes>>)
    ensures DecodeValues(e) == Some(m) <==>
            |e| == |m| && forall i | 0 <= i < |m| ::
                            m[i].key == e[i].key && Trim(e[i].value) == Base64Url.Encode(m[i].value)
  {
    if e != [] && m != [] {
      DecodeValuesIff(e[1..], m[1..]);
      Base64Url.DecodeIffEncoded(Trim(e[0].value), m[0].value);
      assert m == [m[0]] + m[1..];
      if DecodeValues(e).Some? {
        assert DecodeValues(e).value[1..] == DecodeValues(e[1..]).value;
      }
      assert forall i | 1 <= i < |m| && |e| == |m| :: m[i] == m[1..][i - 1] && e[i] == e[1..][i - 1];
    }
  }

  /** Which headers are read: the trimmed text is the base64url form of a JSON object of strings, each of which,
      trimmed, is that of the bytes of its id. */
  lemma FromHeaderIff(value: bytes, m: seq<Entry<bytes>>)
    ensures FromHeader(value) == Ok(m) <==>
            exists text, members, e :: HeaderHolds(value, m, text, members, e)
  {
    var t := Trim(value);
    if FromHeader(value) == Ok(m) {
      var text := Base64Url.Decode(t).value;
      var members := FromSlice(text).value.members;
      var e := ReadMembers(members).value;
      Base64Url.DecodeIffEncoded(t, text);
      DecodeValuesIff(e, m);
      assert HeaderHolds(value, m, text, members, e);
    }
    if text, members, e :| HeaderHolds(value, m, text, members, e) {
      Base64Url.DecodeIffEncoded(t, text);
      DecodeValuesIff(e, m);
    }
  }

  ghost predicate HeaderHolds(value: bytes, m: seq<Entry<bytes>>, text: bytes, members: seq<Member>,
                              e: seq<Entry<bytes>>)
  {
    && Trim(value) == Base64Url.Encode(text) && FromSlice(text) == Some(Obj(members))
    && ReadMembers(members) == Some(e) && |e| == |m|
    && forall i | 0 <= i < |m| :: m[i].key == e[i].key && Trim(e[i].value) == Base64Url.Encode(m[i].value)
  }
}
