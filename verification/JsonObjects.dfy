/** The members of a parsed object (`backend/src/json.rs`): a map from keys to values, in key order. */
module JsonObjects {
  import opened Bits
  import opened Outcomes
  import opened Utf8
  import opened Json
  import opened JsonParser
  import opened JsonLexical
  import opened JsonGrammar

  // ---- Inserting ----

  /** A key past all the others goes to the end. */
  lemma {:induction false} InsertLast(ms: seq<Member>, key: Text, value: Json)
    requires forall i | 0 <= i < |ms| :: Less(ms[i].key, key)
    ensures Insert(ms, key, value) == ms + [Member(key, value)]
  {
    if ms != [] {
      OrderIsStrict(ms[0].key, key);
      InsertLast(ms[1..], key, value);
      assert ms == [ms[0]] + ms[1..];
    }
  }

  /** Every member of the result was there before or is the new one. */
  lemma {:induction false} InsertMembers(ms: seq<Member>, key: Text, value: Json)
    ensures forall m | m in Insert(ms, key, value) :: m in ms || m == Member(key, value)
    ensures Member(key, value) in Insert(ms, key, value)
  {
    if ms != [] {
      InsertMembers(ms[1..], key, value);
    }
  }

  ghost predicate AllAfter(key: Text, ms: seq<Member>) {
    forall m | m in ms :: Less(key, m.key)
  }

  lemma IncreasingParts(ms: seq<Member>)
    requires ms != []
    ensures Increasing(ms) <==> AllAfter(ms[0].key, ms[1..]) && Increasing(ms[1..])
  {
    var rest := ms[1..];
    assert forall i | 0 <= i < |rest| :: rest[i] == ms[i + 1];
    if Increasing(ms) {
      forall m | m in rest
        ensures Less(ms[0].key, m.key)
      {
        var i :| 0 <= i < |rest| && rest[i] == m;
        assert Less(ms[0].key, ms[i + 1].key);
      }
      forall i, j {:trigger Less(rest[i].key, rest[j].key)} | 0 <= i < j < |rest|
        ensures Less(rest[i].key, rest[j].key)
      {
        assert Less(ms[i + 1].key, ms[j + 1].key);
      }
    }
    if AllAfter(ms[0].key, rest) && Increasing(rest) {
      forall i, j {:trigger Less(ms[i].key, ms[j].key)} | 0 <= i < j < |ms|
        ensures Less(ms[i].key, ms[j].key)
      {
        assert ms[j] == rest[j - 1];
        if i > 0 {
          assert Less(rest[i - 1].key, rest[j - 1].key);
        }
      }
    }
  }

  /** Inserting keeps the keys in order. */
  lemma {:induction false} InsertKeepsOrder(ms: seq<Member>, key: Text, value: Json)
    requires Increasing(ms)
    ensures Increasing(Insert(ms, key, value))
  {
    if ms != [] {
      var r := Insert(ms, key, value);
      IncreasingParts(ms);
      IncreasingParts(r);
      if ms[0].key == key {
        assert r[1..] == ms[1..];
      } else if Less(key, ms[0].key) {
        assert r[1..] == ms;
        forall m | m in ms
          ensures Less(key, m.key)
        {
          if m != ms[0] {
            assert m in ms[1..];
            OrderIsTransitive(key, ms[0].key, m.key);
          }
        }
      } else {
        OrderIsTotal(key, ms[0].key);
        assert r[1..] == Insert(ms[1..], key, value);
        InsertKeepsOrder(ms[1..], key, value);
        InsertMembers(ms[1..], key, value);
      }
    }
  }

  /** After an insertion the key has the new value, and every other key what it had. */
  lemma {:induction false} InsertFinds(ms: seq<Member>, key: Text, value: Json, j: Text, w: Json)
    requires Increasing(ms)
    ensures Member(j, w) in Insert(ms, key, value) <==> if j == key then w == value else Member(j, w) in ms
  {
    if ms != [] {
      IncreasingParts(ms);
      var rest := ms[1..];
      assert Member(j, w) in ms <==> Member(j, w) == ms[0] || Member(j, w) in rest;
      if ms[0].key == key {
        NotItself(key);
        assert Member(j, w) in [Member(key, value)] + rest
          <==> Member(j, w) == Member(key, value) || Member(j, w) in rest;
      } else if Less(key, ms[0].key) {
        NotBefore(ms, key, w);
      } else {
        InsertFinds(rest, key, value, j, w);
        var more := Insert(rest, key, value);
        assert Member(j, w) in [ms[0]] + more <==> Member(j, w) == ms[0] || Member(j, w) in more;
      }
    }
    hide Less, Increasing;
  }

  lemma NotItself(key: Text)
    ensures !Less(key, key)
  {
    if Less(key, key) {
      OrderIsStrict(key, key);
    }
  }

  /** A key before the first one is nowhere. */
  lemma NotBefore(ms: seq<Member>, key: Text, w: Json)
    requires ms != [] && Less(key, ms[0].key) && AllAfter(ms[0].key, ms[1..])
    ensures Member(key, w) !in ms
  {
    if Member(key, w) in ms {
      NotItself(key);
      if Member(key, w) in ms[1..] {
        OrderIsTransitive(key, ms[0].key, key);
      }
    }
  }

  // ---- What a record means ----

  ghost predicate HasKey(f: Field, key: Text) {
    AreUnits(f.key) && Denoted(f.key) == key
  }

  ghost predicate HasValue(fl: Floats, f: Field, value: Json) {
    IsTree(fl, f.item.tree) && Meaning(fl, f.item.tree) == value
  }

  /** The last field with this key has this value. */
  ghost predicate LastSays(fl: Floats, fields: seq<Field>, key: Text, value: Json) {
    exists k :: 0 <= k < |fields| && HasKey(fields[k], key) && HasValue(fl, fields[k], value)
                && Unnamed(fields[k + 1..], key)
  }

  ghost predicate Unnamed(fields: seq<Field>, key: Text) {
    forall f | f in fields :: !HasKey(f, key)
  }

  lemma LastOfRest(fl: Floats, fields: seq<Field>, key: Text, value: Json)
    requires fields != []
    ensures LastSays(fl, fields, key, value)
       <==> || LastSays(fl, fields[1..], key, value)
            || (HasKey(fields[0], key) && HasValue(fl, fields[0], value) && Unnamed(fields[1..], key))
    ensures Unnamed(fields, key) <==> !HasKey(fields[0], key) && Unnamed(fields[1..], key)
  {
    hide HasKey, HasValue;
    var rest := fields[1..];
    assert fields == [fields[0]] + rest;
    if LastSays(fl, fields, key, value) {
      var k :| 0 <= k < |fields| && HasKey(fields[k], key) && HasValue(fl, fields[k], value)
               && Unnamed(fields[k + 1..], key);
      if k > 0 {
        assert rest[k - 1] == fields[k] && rest[k..] == fields[k + 1..];
        assert HasKey(rest[k - 1], key) && Unnamed(rest[k - 1 + 1..], key);
      }
    }
    if LastSays(fl, rest, key, value) {
      var k :| 0 <= k < |rest| && HasKey(rest[k], key) && HasValue(fl, rest[k], value) && Unnamed(rest[k + 1..], key);
      assert rest[k] == fields[k + 1] && rest[k + 1..] == fields[k + 2..];
      assert HasKey(fields[k + 1], key) && Unnamed(fields[k + 1 + 1..], key);
    }
  }

  lemma {:induction false} MergedIs(fl: Floats, fields: seq<Field>, done: seq<Member>, key: Text, value: Json)
    requires AreFields(fl, fields) && Increasing(done)
    ensures Increasing(Merged(fl, fields, done))
    ensures Member(key, value) in Merged(fl, fields, done)
       <==> LastSays(fl, fields, key, value) || (Member(key, value) in done && Unnamed(fields, key))
  {
    hide LastSays, Unnamed, Increasing, Insert, Denoted, AreUnits, Blank;
    if fields == [] {
      Nothing(fl, key, value);
    } else {
      var f := fields[0];
      assert IsField(fl, f) && IsItem(fl, f.item);
      var v := Meaning(fl, f.item.tree);
      hide Meaning, IsTree;
      var more := Insert(done, Denoted(f.key), v);
      InsertKeepsOrder(done, Denoted(f.key), v);
      InsertFinds(done, Denoted(f.key), v, key, value);
      MergedIs(fl, fields[1..], more, key, value);
      LastOfRest(fl, fields, key, value);
    }
  }

  lemma Nothing(fl: Floats, key: Text, value: Json)
    ensures !LastSays(fl, [], key, value) && Unnamed([], key)
  {
  }

  /**
   A record means an object that lists its keys in strictly increasing order, and holds a key with a value
   exactly if the last field with that key has that value.
   */
  lemma RecordMeans(fl: Floats, t: Tree, key: Text, value: Json)
    requires t.Record? && IsTree(fl, t)
    ensures Meaning(fl, t).Obj? && Increasing(Meaning(fl, t).members)
    ensures Member(key, value) in Meaning(fl, t).members <==> LastSays(fl, t.fields, key, value)
  {
    MergedIs(fl, t.fields, [], key, value);
    hide LastSays, AreFields, Merged;
  }
}
