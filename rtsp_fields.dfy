/** The header fields of an RTSP message: a std::map<std::string,
    std::string>, kept as a list of key/value pairs in increasing key
    order, which is the order in which the writers walk the map. */
module RtspFields {
  import opened Bytes
  import opened CLib

  datatype Field = Field(key: Text, value: Text)

  type Fields = seq<Field>

  /** std::string's operator<: lexicographic order, a proper prefix first. */
  predicate Less(a: Text, b: Text)
  {
    b != [] && (a == [] || a[0] < b[0] || (a[0] == b[0] && Less(a[1..], b[1..])))
  }

  lemma {:induction false} LessIrreflexive(a: Text)
    ensures !Less(a, a)
  {
    if a != [] {
      LessIrreflexive(a[1..]);
    }
  }

  lemma {:induction false} LessAsymmetric(a: Text, b: Text)
    requires Less(a, b)
    ensures !Less(b, a)
  {
    if a != [] && a[0] == b[0] && Less(a[1..], b[1..]) {
      LessAsymmetric(a[1..], b[1..]);
    }
  }

  lemma {:induction false} LessTransitive(a: Text, b: Text, c: Text)
    requires Less(a, b) && Less(b, c)
    ensures Less(a, c)
  {
    if a != [] && a[0] == b[0] && b[0] == c[0] && Less(a[1..], b[1..]) && Less(b[1..], c[1..]) {
      LessTransitive(a[1..], b[1..], c[1..]);
    }
  }

  /** Two different keys are always ordered one way or the other. */
  lemma {:induction false} LessTotal(a: Text, b: Text)
    requires a != b
    ensures Less(a, b) || Less(b, a)
  {
    if a != [] && b != [] && a[0] == b[0] {
      assert a == [a[0]] + a[1..] && b == [b[0]] + b[1..];
      LessTotal(a[1..], b[1..]);
    }
  }

  /** Keys strictly increasing, as a map iterates. */
  predicate Ordered(fs: Fields)
  {
    forall i, j :: 0 <= i < j < |fs| ==> Less(fs[i].key, fs[j].key)
  }

  /** map::find: the value stored under k. */
  function Get(fs: Fields, k: Text): (r: Option<Text>)
    ensures r.Some? <==> exists i :: 0 <= i < |fs| && fs[i].key == k
  {
    if fs == [] then None
    else if fs[0].key == k then Some(fs[0].value)
    else Get(fs[1..], k)
  }

  /** map[k] = v: replaces the value under k or inserts k in order. */
  function Put(fs: Fields, k: Text, v: Text): (r: Fields)
    ensures r != []
    ensures r[0].key == k || (fs != [] && r[0].key == fs[0].key)
  {
    if fs == [] then [Field(k, v)]
    else if fs[0].key == k then [Field(k, v)] + fs[1..]
    else if Less(k, fs[0].key) then [Field(k, v)] + fs
    else [fs[0]] + Put(fs[1..], k, v)
  }

  /** After map[k] = v, k maps to v and every other key to what it did. */
  lemma {:induction false} PutGet(fs: Fields, k: Text, v: Text, q: Text)
    ensures Get(Put(fs, k, v), q) == if q == k then Some(v) else Get(fs, q)
  {
    if fs != [] && fs[0].key != k && !Less(k, fs[0].key) {
      PutGet(fs[1..], k, v, q);
    }
  }

  /** Inserting keeps the keys in order. */
  lemma {:induction false} PutOrdered(fs: Fields, k: Text, v: Text)
    requires Ordered(fs)
    ensures Ordered(Put(fs, k, v))
  {
    if fs != [] && fs[0].key != k {
      if Less(k, fs[0].key) {
        forall j | 0 < j < |fs| {
          LessTransitive(k, fs[0].key, fs[j].key);
        }
      } else {
        LessTotal(k, fs[0].key);
        PutOrdered(fs[1..], k, v);
        PutKeys(fs[1..], k, v);
        var r := Put(fs, k, v);
        forall j | 0 < j < |r|
          ensures Less(fs[0].key, r[j].key)
        {
          assert r[j] == Put(fs[1..], k, v)[j - 1];
        }
      }
    }
  }

  /** The keys after map[k] = v: the old ones and k. */
  lemma {:induction false} PutKeys(fs: Fields, k: Text, v: Text)
    ensures forall j :: 0 <= j < |Put(fs, k, v)| ==>
              Put(fs, k, v)[j].key == k || exists i :: 0 <= i < |fs| && fs[i].key == Put(fs, k, v)[j].key
  {
    if fs != [] && fs[0].key != k && !Less(k, fs[0].key) {
      PutKeys(fs[1..], k, v);
      var r := Put(fs, k, v);
      forall j | 0 < j < |r|
        ensures r[j].key == k || exists i :: 0 <= i < |fs| && fs[i].key == r[j].key
      {
        assert r[j] == Put(fs[1..], k, v)[j - 1];
        if r[j].key != k {
          var i :| 0 <= i < |fs[1..]| && fs[1..][i].key == r[j].key;
          assert fs[i + 1].key == r[j].key;
        }
      }
    } else if fs != [] && fs[0].key == k {
      var r := Put(fs, k, v);
      forall j | 0 < j < |r|
        ensures exists i :: 0 <= i < |fs| && fs[i].key == r[j].key
      {
        assert r[j] == fs[j];
      }
    } else if fs != [] {
      var r := Put(fs, k, v);
      forall j | 0 < j < |r|
        ensures exists i :: 0 <= i < |fs| && fs[i].key == r[j].key
      {
        assert r[j] == fs[j - 1];
      }
    }
  }

  /** A key above every key present goes at the end. */
  lemma {:induction false} PutLast(fs: Fields, k: Text, v: Text)
    requires forall i :: 0 <= i < |fs| ==> Less(fs[i].key, k)
    ensures Put(fs, k, v) == fs + [Field(k, v)]
  {
    if fs != [] {
      LessIrreflexive(k);
      LessAsymmetric(fs[0].key, k);
      PutLast(fs[1..], k, v);
      assert [fs[0]] + (fs[1..] + [Field(k, v)]) == fs + [Field(k, v)];
    }
  }
}
