/** Parsing undoes serializing (`backend/src/json.rs`). */
module JsonRoundTrip {
  import opened Bits
  import opened Outcomes
  import opened Utf8
  import opened Json
  import opened JsonParser
  import opened JsonLexical
  import opened JsonGrammar
  import opened JsonObjects

  // ---- What is printed is a document ----

  /** How the serializer writes a scalar. */
  function UnitOf(c: Scalar): Unit {
    match ShortEscape(c)
    case Some(letter) => Short(letter)
    case None => if c < 0x20 then Hex(Hex4(c)) else Raw(c)
  }

  function UnitsOf(t: Text): seq<Unit> {
    if t == [] then [] else [UnitOf(t[0])] + UnitsOf(t[1..])
  }

  lemma UnitOfMeans(c: Scalar)
    ensures IsUnit(UnitOf(c)) && UnitText(UnitOf(c)) == CharText(c)
    ensures UnitOf(c).Hex? ==> HexFour(UnitOf(c).digits) == c < 0x20
  {
    if UnitOf(c).Hex? {
      HexDigitReads(c / 0x1000);
      HexDigitReads(c / 0x100 % 0x10);
      HexDigitReads(c / 0x10 % 0x10);
      HexDigitReads(c % 0x10);
      Base16(c);
      hide HexValue;
    }
  }

  /** A text's units are written as the text is, and denote it. */
  lemma {:induction false} UnitsOfMean(t: Text)
    ensures AreUnits(UnitsOf(t)) && UnitsText(UnitsOf(t)) == CharsText(t) && Denoted(UnitsOf(t)) == t
    decreases |t|
  {
    if t != [] {
      UnitOfMeans(t[0]);
      UnitsOfMean(t[1..]);
      hide UnitText, CharText, HexFour, IsHexFour, Encode;
      var us := UnitsOf(t);
      assert us[1..] == UnitsOf(t[1..]);
      assert Head(us) == (t[0], us[1..]) by {
        if us[0].Short? {
          ShortUnit(t[0]);
        }
      }
      assert [t[0]] + t[1..] == t;
    }
  }

  lemma ShortUnit(c: Scalar)
    requires UnitOf(c).Short?
    ensures Unescaped(UnitOf(c).letter) == Some(c)
  {
  }

  const ZERO_NUMBER: Number := Number(false, [0x30], None, None)

  /** The document that the serializer writes: no space, and nothing a JSON number cannot show. */
  function TreeOf(fl: Floats, v: Json): Tree
    decreases v, 1
  {
    match v
    case Null => Word(Null)
    case Bool(b) => Word(v)
    case Num(x) => if !IsFinite(x) then Word(Null) else Numeral(if IsZero(x) then ZERO_NUMBER else fl.show(x))
    case Str(t) => Quoted(UnitsOf(t))
    case Arr(items) => List([], ItemsOf(fl, v, 0))
    case Obj(ms) => Record([], FieldsOf(fl, v, 0))
  }

  function ItemsOf(fl: Floats, v: Json, k: nat): (items: seq<Item>)
    requires v.Arr? && k <= |v.items|
    ensures |items| == |v.items| - k
    decreases v, 0, |v.items| - k
  {
    if k == |v.items| then [] else [Item([], TreeOf(fl, v.items[k]), [])] + ItemsOf(fl, v, k + 1)
  }

  function FieldsOf(fl: Floats, v: Json, k: nat): (fields: seq<Field>)
    requires v.Obj? && k <= |v.members|
    ensures |fields| == |v.members| - k
    decreases v, 0, |v.members| - k
  {
    if k == |v.members| then []
    else
      var m := v.members[k];
      [Field([], UnitsOf(m.key), [], Item([], TreeOf(fl, m.value), []))] + FieldsOf(fl, v, k + 1)
  }

  /** It is written as the serializer writes it. */
  lemma {:induction false} TreeOfText(fl: Floats, v: Json)
    ensures TreeText(TreeOf(fl, v)) == ValueText(fl, v)
    decreases v, 1
  {
    match v
    case Str(t) => UnitsOfMean(t);
    case Num(x) =>
      assert NumberText(ZERO_NUMBER) == [0x30];
      hide NumberText;
    case Arr(items) =>
      if items != [] {
        ItemsOfText(fl, v, 0);
      }
      hide ItemsText, ItemTexts, Joined;
      assert [] + [CLOSE_BRACKET] == [CLOSE_BRACKET];
      assert items == [] ==> ItemsOf(fl, v, 0) == [];
      EmptyList(fl, v);
    case Obj(ms) =>
      if ms != [] {
        FieldsOfText(fl, v, 0);
      }
      hide FieldsText, MemberTexts, Joined;
      assert [] + [CLOSE_BRACE] == [CLOSE_BRACE];
      assert ms == [] ==> FieldsOf(fl, v, 0) == [];
      EmptyRecord(fl, v);
    case _ =>
  }

  lemma EmptyList(fl: Floats, v: Json)
    requires v.Arr?
    ensures v.items == [] ==> Joined(ItemTexts(fl, v), 0, CLOSE_BRACKET) == [CLOSE_BRACKET]
  {
  }

  lemma EmptyRecord(fl: Floats, v: Json)
    requires v.Obj?
    ensures v.members == [] ==> Joined(MemberTexts(fl, v), 0, CLOSE_BRACE) == [CLOSE_BRACE]
  {
  }

  lemma {:induction false} ItemsOfText(fl: Floats, v: Json, k: nat)
    requires v.Arr? && k < |v.items|
    ensures Joined(ItemTexts(fl, v), k, CLOSE_BRACKET) == CommaText(k) + ItemsText(ItemsOf(fl, v, k))
    decreases v, 0, |v.items| - k
  {
    var items := ItemsOf(fl, v, k);
    assert items[1..] == ItemsOf(fl, v, k + 1);
    TreeOfText(fl, v.items[k]);
    assert ItemTexts(fl, v)[k] == ValueText(fl, v.items[k]) == ItemText(items[0]);
    if k + 1 < |v.items| {
      ItemsOfText(fl, v, k + 1);
    }
    hide ItemTexts, TreeText, ValueText, ItemText, TreeOf;
  }

  lemma {:induction false} FieldsOfText(fl: Floats, v: Json, k: nat)
    requires v.Obj? && k < |v.members|
    ensures Joined(MemberTexts(fl, v), k, CLOSE_BRACE) == CommaText(k) + FieldsText(FieldsOf(fl, v, k))
    decreases v, 0, |v.members| - k
  {
    var fields, m := FieldsOf(fl, v, k), v.members[k];
    assert fields[1..] == FieldsOf(fl, v, k + 1);
    TreeOfText(fl, m.value);
    FieldOfText(fl, m, fields[0]);
    assert MemberTexts(fl, v)[k] == FieldText(fields[0]);
    if k + 1 < |v.members| {
      FieldsOfText(fl, v, k + 1);
    }
    hide MemberTexts, FieldText;
  }

  lemma FieldOfText(fl: Floats, m: Member, f: Field)
    requires f == Field([], UnitsOf(m.key), [], Item([], TreeOf(fl, m.value), []))
    requires TreeText(TreeOf(fl, m.value)) == ValueText(fl, m.value)
    ensures FieldText(f) == MemberText(fl, m)
  {
    UnitsOfMean(m.key);
    hide UnitsText, CharsText, UnitsOf, TreeOf, TreeText, ValueText, AreUnits;
    assert ItemText(f.item) == ValueText(fl, m.value);
    assert KeyPart(f) == KeyText(m.key);
  }

  /** It is a document of the grammar. */
  lemma {:induction false} TreeOfIsTree(fl: Floats, v: Json)
    requires Sound(fl)
    ensures IsTree(fl, TreeOf(fl, v))
    decreases v, 1
  {
    match v
    case Str(t) => UnitsOfMean(t);
    case Num(x) =>
      assert Shows(fl, x);
      assert NumberText(ZERO_NUMBER) == [0x30];
    case Arr(_) => ItemsOfAreItems(fl, v, 0);
    case Obj(_) => FieldsOfAreFields(fl, v, 0);
    case _ =>
  }

  lemma {:induction false} ItemsOfAreItems(fl: Floats, v: Json, k: nat)
    requires Sound(fl) && v.Arr? && k <= |v.items|
    ensures AreItems(fl, ItemsOf(fl, v, k))
    decreases v, 0, |v.items| - k
  {
    hide Sound, TreeOf;
    if k < |v.items| {
      TreeOfIsTree(fl, v.items[k]);
      ItemsOfAreItems(fl, v, k + 1);
      assert ItemsOf(fl, v, k)[1..] == ItemsOf(fl, v, k + 1);
    }
  }

  lemma {:induction false} FieldsOfAreFields(fl: Floats, v: Json, k: nat)
    requires Sound(fl) && v.Obj? && k <= |v.members|
    ensures AreFields(fl, FieldsOf(fl, v, k))
    decreases v, 0, |v.members| - k
  {
    hide Sound, TreeOf, UnitsOf, AreUnits, Denoted, UnitsText;
    if k < |v.members| {
      UnitsOfMean(v.members[k].key);
      TreeOfIsTree(fl, v.members[k].value);
      FieldsOfAreFields(fl, v, k + 1);
      var fields := FieldsOf(fl, v, k);
      assert fields[1..] == FieldsOf(fl, v, k + 1);
      assert IsItem(fl, fields[0].item);
    }
  }

  // ---- And means the value ----

  /** What a printed value reads back as: non-finite numbers became `null`, and zero lost its sign. */
  function Readback(v: Json): (r: Json)
    ensures v.Arr? ==> r.Arr? && |r.items| == |v.items|
    ensures v.Obj? ==> r.Obj? && |r.members| == |v.members|
  {
    match v
    case Num(x) => if !IsFinite(x) then Null else if IsZero(x) then Num(ZERO) else v
    case Arr(items) => Arr(seq(|items|, i requires 0 <= i < |items| => Readback(items[i])))
    case Obj(ms) => Obj(seq(|ms|, i requires 0 <= i < |ms| => Member(ms[i].key, Readback(ms[i].value))))
    case _ => v
  }

  /** What is printed means what reads back. */
  lemma {:induction false} TreeOfMeans(fl: Floats, v: Json)
    requires Sound(fl) && Ordered(v)
    ensures IsTree(fl, TreeOf(fl, v)) && Meaning(fl, TreeOf(fl, v)) == Readback(v)
    decreases v, 1
  {
    TreeOfIsTree(fl, v);
    match v
    case Str(t) => UnitsOfMean(t);
    case Num(x) =>
      assert Shows(fl, x);
      assert NumberText(ZERO_NUMBER) == [0x30];
    case Arr(items) =>
      ItemsOfMean(fl, v, 0);
      assert Readback(v).items[0..] == Readback(v).items;
    case Obj(ms) =>
      FieldsOfMean(fl, v, 0);
      assert Readback(v).members[..0] == [];
    case _ =>
  }

  lemma {:induction false} ItemsOfMean(fl: Floats, v: Json, k: nat)
    requires Sound(fl) && Ordered(v) && v.Arr? && k <= |v.items|
    ensures AreItems(fl, ItemsOf(fl, v, k)) && Meanings(fl, ItemsOf(fl, v, k)) == Readback(v).items[k..]
    decreases v, 0, |v.items| - k
  {
    ItemsOfAreItems(fl, v, k);
    hide Sound, TreeOf, IsTree;
    if k < |v.items| {
      TreeOfMeans(fl, v.items[k]);
      ItemsOfMean(fl, v, k + 1);
      assert ItemsOf(fl, v, k)[1..] == ItemsOf(fl, v, k + 1);
      var r := Readback(v).items;
      assert r[k] == Readback(v.items[k]);
      assert r[k..] == [r[k]] + r[k + 1..];
    }
  }

  lemma {:induction false} FieldsOfMean(fl: Floats, v: Json, k: nat)
    requires Sound(fl) && Ordered(v) && v.Obj? && k <= |v.members|
    ensures AreFields(fl, FieldsOf(fl, v, k))
    ensures Merged(fl, FieldsOf(fl, v, k), Readback(v).members[..k]) == Readback(v).members
    decreases v, 0, |v.members| - k
  {
    FieldsOfAreFields(fl, v, k);
    hide Sound, TreeOf, IsTree, AreUnits, UnitsOf, UnitsText, Denoted, Insert;
    var r := Readback(v).members;
    if k < |v.members| {
      var m := v.members[k];
      UnitsOfMean(m.key);
      TreeOfMeans(fl, m.value);
      FieldsOfMean(fl, v, k + 1);
      assert FieldsOf(fl, v, k)[1..] == FieldsOf(fl, v, k + 1);
      NextMember(v, k);
    } else {
      assert r[..k] == r;
    }
  }

  lemma NextMember(v: Json, k: nat)
    requires Ordered(v) && v.Obj? && k < |v.members|
    ensures var m, r := v.members[k], Readback(v).members;
            Insert(r[..k], m.key, Readback(m.value)) == r[..k + 1]
  {
    hide Insert;
    var m, r := v.members[k], Readback(v).members;
    forall i | 0 <= i < k
      ensures Less(r[..k][i].key, m.key)
    {
      assert Less(v.members[i].key, v.members[k].key);
    }
    InsertLast(r[..k], m.key, Readback(m.value));
  }

  /** It nests as deep as the value does. */
  lemma {:induction false} TreeOfFits(fl: Floats, v: Json, depth: nat)
    ensures Shallow(TreeOf(fl, v), depth) <==> Fits(v, depth)
    decreases v, 1
  {
    match v
    case Arr(_) => ItemsOfFit(fl, v, 0, depth + 1);
    case Obj(_) => FieldsOfFit(fl, v, 0, depth + 1);
    case _ =>
  }

  lemma {:induction false} ItemsOfFit(fl: Floats, v: Json, k: nat, depth: nat)
    requires v.Arr? && k <= |v.items|
    ensures ItemsShallow(ItemsOf(fl, v, k), depth) <==> forall j | k <= j < |v.items| :: Fits(v.items[j], depth)
    decreases v, 0, |v.items| - k
  {
    hide TreeOf, Shallow, Fits;
    if k < |v.items| {
      TreeOfFits(fl, v.items[k], depth);
      ItemsOfFit(fl, v, k + 1, depth);
      assert ItemsOf(fl, v, k)[1..] == ItemsOf(fl, v, k + 1);
    }
  }

  lemma {:induction false} FieldsOfFit(fl: Floats, v: Json, k: nat, depth: nat)
    requires v.Obj? && k <= |v.members|
    ensures FieldsShallow(FieldsOf(fl, v, k), depth) <==>
      forall j | k <= j < |v.members| :: Fits(v.members[j].value, depth)
    decreases v, 0, |v.members| - k
  {
    hide TreeOf, Shallow, Fits, UnitsOf;
    if k < |v.members| {
      TreeOfFits(fl, v.members[k].value, depth);
      FieldsOfFit(fl, v, k + 1, depth);
      assert FieldsOf(fl, v, k)[1..] == FieldsOf(fl, v, k + 1);
    }
  }

  // ---- The two directions ----

  /** `parse(stringify(v))`: the value as printed, or an error exactly when it nests too deep. */
  lemma ParseAfterStringify(fl: Floats, v: Json)
    requires Sound(fl) && Ordered(v)
    ensures if Fits(v, 0) then Parsed(fl, ValueText(fl, v)) == Ok(Readback(v)) else Parsed(fl, ValueText(fl, v)).Err?
  {
    hide Parsed, Readback, Sound, Ordered, ValueText, Fits, TreeText, TreeOf, Shallow, IsTree, Meaning;
    var doc := Item([], TreeOf(fl, v), []);
    TreeOfIsTree(fl, v);
    TreeOfMeans(fl, v);
    TreeOfText(fl, v);
    TreeOfFits(fl, v, 0);
    assert [] + (TreeText(doc.tree) + []) == TreeText(doc.tree);
    DocumentReads(fl, doc);
  }

  /** No number in the value is one that JSON cannot show. */
  ghost predicate Plain(v: Json) {
    match v
    case Num(x) => IsFinite(x) && x != NEGATIVE_ZERO
    case Arr(items) => forall i | 0 <= i < |items| :: Plain(items[i])
    case Obj(ms) => forall i | 0 <= i < |ms| :: Plain(ms[i].value)
    case _ => true
  }

  lemma {:induction false} PlainReadsBack(v: Json)
    ensures Readback(v) == v <==> Plain(v)
  {
    match v
    case Arr(items) =>
      forall i | 0 <= i < |items|
        ensures Readback(items[i]) == items[i] <==> Plain(items[i])
      {
        PlainReadsBack(items[i]);
      }
      var r := Readback(v).items;
      assert forall i | 0 <= i < |items| :: r[i] == Readback(items[i]);
      if Plain(v) {
        assert r == items;
      }
    case Obj(ms) =>
      forall i | 0 <= i < |ms|
        ensures Readback(ms[i].value) == ms[i].value <==> Plain(ms[i].value)
      {
        PlainReadsBack(ms[i].value);
      }
      var r := Readback(v).members;
      assert forall i | 0 <= i < |ms| :: r[i] == Member(ms[i].key, Readback(ms[i].value));
      if Plain(v) {
        assert r == ms;
      }
    case _ =>
  }

  /** The round trip is exact for every value of finite numbers within the depth limit, and for no other. */
  lemma RoundTripIff(fl: Floats, v: Json)
    requires Sound(fl) && Ordered(v)
    ensures Parsed(fl, ValueText(fl, v)) == Ok(v) <==> Fits(v, 0) && Plain(v)
  {
    hide Parsed, Readback, Plain, Fits, Ordered, ValueText;
    ParseAfterStringify(fl, v);
    PlainReadsBack(v);
  }

  ghost predicate Sane(v: Json, depth: nat) {
    Ordered(v) && Fits(v, depth)
  }

  /** Whatever parses is within the depth limit, its keys unique and in order. */
  lemma {:induction false} ValueIsSane(fl: Floats, b: seq<byte>, i: nat, depth: nat)
    requires i <= |b|
    ensures ParseValue(fl, b, i, depth).Got? ==> Sane(ParseValue(fl, b, i, depth).value, depth)
    decreases |b| - i, 0
  {
    hide ParseItems, ParseMembers, ParseNumber, ParseChars;
    if depth <= MAX_DEPTH && i < |b| {
      if b[i] == OPEN_BRACKET {
        ItemsAreSane(fl, b, SkipSpace(b, i + 1), depth, []);
      } else if b[i] == OPEN_BRACE {
        MembersAreSane(fl, b, SkipSpace(b, i + 1), depth, []);
      } else if b[i] == MINUS || IsDigit(b[i]) {
        NumberIsNum(fl, b, i);
      }
    }
  }

  lemma NumberIsNum(fl: Floats, b: seq<byte>, i: nat)
    requires i <= |b|
    ensures ParseNumber(fl, b, i).Got? ==> ParseNumber(fl, b, i).value.Num?
  {
  }

  lemma {:induction false} ItemsAreSane(fl: Floats, b: seq<byte>, i: nat, depth: nat, acc: seq<Json>)
    requires i <= |b| && depth <= MAX_DEPTH
    requires forall k | 0 <= k < |acc| :: Sane(acc[k], depth + 1)
    ensures ParseItems(fl, b, i, depth, acc).Got? ==> Sane(ParseItems(fl, b, i, depth, acc).value, depth)
    decreases |b| - i, 1
  {
    hide ParseValue;
    var j := SkipSpace(b, i);
    ValueIsSane(fl, b, j, depth + 1);
    var s := ParseValue(fl, b, j, depth + 1);
    if s.Got? {
      var acc' := acc + [s.value];
      var k := SkipSpace(b, s.next);
      assert forall h | 0 <= h < |acc'| :: Sane(acc'[h], depth + 1);
      if Peek(b, k) == Some(COMMA) {
        ItemsAreSane(fl, b, k + 1, depth, acc');
      } else {
        SaneArray(acc', depth);
      }
    }
  }

  lemma SaneArray(items: seq<Json>, depth: nat)
    requires depth <= MAX_DEPTH && forall k | 0 <= k < |items| :: Sane(items[k], depth + 1)
    ensures Sane(Arr(items), depth)
  {
  }

  lemma SaneObject(ms: seq<Member>, depth: nat)
    requires depth <= MAX_DEPTH && Increasing(ms) && forall m | m in ms :: Sane(m.value, depth + 1)
    ensures Sane(Obj(ms), depth)
  {
    assert forall k | 0 <= k < |ms| :: ms[k] in ms;
  }

  lemma {:induction false} MembersAreSane(fl: Floats, b: seq<byte>, i: nat, depth: nat, acc: seq<Member>)
    requires i <= |b| && depth <= MAX_DEPTH && Increasing(acc)
    requires forall m | m in acc :: Sane(m.value, depth + 1)
    ensures ParseMembers(fl, b, i, depth, acc).Got? ==> Sane(ParseMembers(fl, b, i, depth, acc).value, depth)
    decreases |b| - i, 1
  {
    hide ParseValue, ParseKey, Insert, Sane, Increasing;
    var key := ParseKey(b, i);
    if key.Got? {
      var j := SkipSpace(b, key.next);
      ValueIsSane(fl, b, j, depth + 1);
      var s := ParseValue(fl, b, j, depth + 1);
      if s.Got? {
        var acc' := Insert(acc, key.value, s.value);
        InsertKeepsOrder(acc, key.value, s.value);
        InsertMembers(acc, key.value, s.value);
        var k := SkipSpace(b, s.next);
        if Peek(b, k) == Some(COMMA) {
          MembersAreSane(fl, b, k + 1, depth, acc');
        } else {
          SaneObject(acc', depth);
        }
      }
    }
  }

  /** Printing what was parsed, and parsing that, settles on the same value from any input. */
  lemma ReparseSettles(fl: Floats, b: seq<byte>)
    requires Sound(fl) && Parsed(fl, b).Ok?
    ensures var v := Parsed(fl, b).value;
            Ordered(v) && Fits(v, 0) && Parsed(fl, ValueText(fl, v)) == Ok(Readback(v))
  {
    hide Sound, ParseValue, Readback, ValueText, Ordered, Fits;
    var i := SkipSpace(b, 0);
    var v := ParseValue(fl, b, i, 0).value;
    ValueIsSane(fl, b, i, 0);
    assert Sane(v, 0);
    ParseAfterStringify(fl, v);
  }

  // ---- Escapes the serializer does not use ----

  /** A scalar as JavaScript escapes it: one UTF-16 unit, or a surrogate pair. */
  function Escaped(c: Scalar): seq<byte> {
    if c < 0x1_0000 then Hex4(c)
    else Hex4(0xD800 + (c - 0x1_0000) / 0x400) + ([BACKSLASH, LETTER_U] + Hex4(0xDC00 + (c - 0x1_0000) % 0x400))
  }

  /** Every scalar reads back from its escape. */
  lemma EscapedReads(b: seq<byte>, i: nat, c: Scalar)
    requires At(b, i, Escaped(c))
    ensures ParseUnicode(b, i) == Got(c, i + |Escaped(c)|)
  {
    if c < 0x1_0000 {
      Hex4Reads(b, i, c);
    } else {
      var hi, lo := 0xD800 + (c - 0x1_0000) / 0x400, 0xDC00 + (c - 0x1_0000) % 0x400;
      AtSplit(b, i, Hex4(hi), [BACKSLASH, LETTER_U] + Hex4(lo));
      AtSplit(b, i + 4, [BACKSLASH, LETTER_U], Hex4(lo));
      Hex4Reads(b, i, hi);
      Hex4Reads(b, i + 6, lo);
      assert Offset(0) && Offset(1);
      hide ParseHex4, Hex4;
      assert Join(hi, lo) == c;
    }
  }

  /** A surrogate without its partner reads as U+FFFD, and what follows it is left to be read. */
  lemma LoneSurrogate(b: seq<byte>, i: nat, unit: nat)
    requires IsHigh(unit) || IsLow(unit)
    requires At(b, i, Hex4(unit))
    requires IsHigh(unit) ==> Peek(b, i + 4) != Some(BACKSLASH) || Peek(b, i + 5) != Some(LETTER_U)
                              || (ParseHex4(b, i + 6).Got? && !IsLow(ParseHex4(b, i + 6).value))
    ensures ParseUnicode(b, i) == Got(REPLACEMENT, i + 4)
  {
    Hex4Reads(b, i, unit);
    hide ParseHex4, Hex4;
  }
}
