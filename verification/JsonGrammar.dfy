/**
 JSON documents as written, space and all, and the parser against them
 (`backend/src/json.rs`; RFC 8259).
 */
module JsonGrammar {
  import opened Bits
  import opened Outcomes
  import opened Utf8
  import opened Json
  import opened JsonParser
  import opened JsonLexical

  // ---- Documents ----

  /** A value as written. A list or record that is not empty has its space in its elements. */
  datatype Tree =
    | Word(v: Json)
    | Numeral(n: Number)
    | Quoted(us: seq<Unit>)
    | List(blank: seq<byte>, items: seq<Item>)
    | Record(blank: seq<byte>, fields: seq<Field>)

  datatype Item = Item(before: seq<byte>, tree: Tree, after: seq<byte>)

  datatype Field = Field(before: seq<byte>, key: seq<Unit>, gap: seq<byte>, item: Item)

  function WordText(v: Json): seq<byte> {
    match v
    case Bool(true) => TRUE_TEXT
    case Bool(false) => FALSE_TEXT
    case _ => NULL_TEXT
  }

  function TreeText(t: Tree): (s: seq<byte>)
    decreases t
  {
    match t
    case Word(v) => WordText(v)
    case Numeral(n) => NumberText(n)
    case Quoted(us) => [QUOTE] + UnitsText(us)
    case List(blank, items) =>
      [OPEN_BRACKET] + if items == [] then blank + [CLOSE_BRACKET] else ItemsText(items)
    case Record(blank, fields) =>
      [OPEN_BRACE] + if fields == [] then blank + [CLOSE_BRACE] else FieldsText(fields)
  }

  function ItemText(it: Item): seq<byte>
    decreases it
  {
    it.before + (TreeText(it.tree) + it.after)
  }

  /** Items, with commas between them, and the bracket. */
  function ItemsText(items: seq<Item>): (s: seq<byte>)
    requires items != []
    decreases items, 1
  {
    ItemText(items[0]) + ItemsTail(items)
  }

  function ItemsTail(items: seq<Item>): seq<byte>
    requires items != []
    decreases items, 0
  {
    if |items| == 1 then [CLOSE_BRACKET] else [COMMA] + ItemsText(items[1..])
  }

  function KeyPart(f: Field): seq<byte> {
    f.before + (([QUOTE] + UnitsText(f.key)) + (f.gap + [COLON]))
  }

  function FieldText(f: Field): seq<byte>
    decreases f
  {
    KeyPart(f) + ItemText(f.item)
  }

  function FieldsText(fields: seq<Field>): (s: seq<byte>)
    requires fields != []
    decreases fields, 1
  {
    FieldText(fields[0]) + FieldsTail(fields)
  }

  function FieldsTail(fields: seq<Field>): seq<byte>
    requires fields != []
    decreases fields, 0
  {
    if |fields| == 1 then [CLOSE_BRACE] else [COMMA] + FieldsText(fields[1..])
  }

  /** The grammar: what may stand where. A numeral must be one that the conversion can read. */
  predicate IsTree(fl: Floats, t: Tree)
    decreases t
  {
    match t
    case Word(v) => v.Null? || v.Bool?
    case Numeral(n) => WellFormedNumber(n) && fl.read(NumberText(n)).Some?
    case Quoted(us) => AreUnits(us)
    case List(blank, items) => Blank(blank) && (items != [] ==> blank == []) && AreItems(fl, items)
    case Record(blank, fields) => Blank(blank) && (fields != [] ==> blank == []) && AreFields(fl, fields)
  }

  predicate IsItem(fl: Floats, it: Item)
    decreases it
  {
    Blank(it.before) && IsTree(fl, it.tree) && Blank(it.after)
  }

  predicate AreItems(fl: Floats, items: seq<Item>)
    decreases items
  {
    items != [] ==> IsItem(fl, items[0]) && AreItems(fl, items[1..])
  }

  predicate IsField(fl: Floats, f: Field)
    decreases f
  {
    Blank(f.before) && AreUnits(f.key) && Blank(f.gap) && IsItem(fl, f.item)
  }

  predicate AreFields(fl: Floats, fields: seq<Field>)
    decreases fields
  {
    fields != [] ==> IsField(fl, fields[0]) && AreFields(fl, fields[1..])
  }

  /** What it means. */
  function Meaning(fl: Floats, t: Tree): Json
    requires IsTree(fl, t)
    decreases t
  {
    match t
    case Word(v) => v
    case Numeral(n) => Num(fl.read(NumberText(n)).value)
    case Quoted(us) => Str(Denoted(us))
    case List(_, items) => Arr(Meanings(fl, items))
    case Record(_, fields) => Obj(Merged(fl, fields, []))
  }

  function Meanings(fl: Floats, items: seq<Item>): (vs: seq<Json>)
    requires AreItems(fl, items)
    decreases items
  {
    if items == [] then []
    else
      assert IsItem(fl, items[0]);
      [Meaning(fl, items[0].tree)] + Meanings(fl, items[1..])
  }

  /** The fields one after the other, a repeated key keeping its last value. */
  function Merged(fl: Floats, fields: seq<Field>, done: seq<Member>): seq<Member>
    requires AreFields(fl, fields)
    decreases fields
  {
    if fields == [] then done
    else
      var f := fields[0];
      assert IsField(fl, f) && IsItem(fl, f.item);
      Merged(fl, fields[1..], Insert(done, Denoted(f.key), Meaning(fl, f.item.tree)))
  }

  /** Nothing in it sits deeper than the limit. */
  predicate Shallow(t: Tree, depth: nat)
    decreases t
  {
    && depth <= 128
    && match t
       case List(_, items) => ItemsShallow(items, depth + 1)
       case Record(_, fields) => FieldsShallow(fields, depth + 1)
       case _ => true
  }

  predicate ItemsShallow(items: seq<Item>, depth: nat)
    decreases items
  {
    items != [] ==> Shallow(items[0].tree, depth) && ItemsShallow(items[1..], depth)
  }

  predicate FieldsShallow(fields: seq<Field>, depth: nat)
    decreases fields
  {
    fields != [] ==> Shallow(fields[0].item.tree, depth) && FieldsShallow(fields[1..], depth)
  }

  // ---- Every document is read ----

  /** Parsing yields exactly `v` up to `end`, or fails. */
  predicate Reads(s: Step<Json>, shallow: bool, v: Json, end: nat) {
    if shallow then s == Got(v, end) else s.Bad?
  }

  lemma TreeFirst(fl: Floats, t: Tree)
    requires IsTree(fl, t)
    ensures TreeText(t) != [] && !IsSpace(TreeText(t)[0])
    ensures TreeText(t)[0] != CLOSE_BRACKET && TreeText(t)[0] != CLOSE_BRACE
  {
    if t.Numeral? {
      assert NumberText(t.n)[0] == if t.n.negative then MINUS else t.n.whole[0];
    }
  }

  lemma NumeralReads(fl: Floats, b: seq<byte>, i: nat, n: Number, depth: nat)
    requires WellFormedNumber(n) && fl.read(NumberText(n)).Some? && depth <= MAX_DEPTH
    requires At(b, i, NumberText(n)) && Ends(b, i + |NumberText(n)|)
    ensures ParseValue(fl, b, i, depth) == Got(Num(fl.read(NumberText(n)).value), i + |NumberText(n)|)
  {
    NumberReads(b, i, n);
    AtIsSlice(b, i, NumberText(n));
    hide NumberEnd, NumberText, ParseChars, ParseArray, ParseObject;
  }

  lemma WordReads(fl: Floats, b: seq<byte>, i: nat, v: Json, depth: nat)
    requires (v.Null? || v.Bool?) && At(b, i, WordText(v)) && depth <= MAX_DEPTH
    ensures ParseValue(fl, b, i, depth) == Got(v, i + |WordText(v)|)
  {
    AtFirst(b, i, WordText(v));
    hide ParseChars, ParseArray, ParseObject, ParseNumber;
  }

  lemma QuotedReads(fl: Floats, b: seq<byte>, i: nat, us: seq<Unit>, depth: nat)
    requires AreUnits(us) && At(b, i, [QUOTE] + UnitsText(us)) && depth <= MAX_DEPTH
    ensures ParseValue(fl, b, i, depth) == Got(Str(Denoted(us)), i + 1 + |UnitsText(us)|)
  {
    AtSplit(b, i, [QUOTE], UnitsText(us));
    AtFirst(b, i, [QUOTE]);
    UnitsRead(b, i + 1, us, []);
    assert [] + Denoted(us) == Denoted(us);
    hide ParseChars, ParseArray, ParseObject, ParseNumber;
  }

  /** A document reads as what it means, up to its end, unless it nests too deep. */
  lemma {:induction false} TreeReads(fl: Floats, b: seq<byte>, i: nat, t: Tree, depth: nat)
    requires IsTree(fl, t) && At(b, i, TreeText(t)) && Ends(b, i + |TreeText(t)|)
    ensures i <= |b|
    ensures Reads(ParseValue(fl, b, i, depth), Shallow(t, depth), Meaning(fl, t), i + |TreeText(t)|)
    decreases t, 1
  {
    hide At, ParseArray, ParseObject, ParseNumber, ParseChars, ParseLiteral;
    hide AreUnits, AreItems, AreFields, NumberText, UnitsText, ItemsText, FieldsText, Meanings, Merged, Denoted;
    TreeFirst(fl, t);
    AtFirst(b, i, TreeText(t));
    if depth <= MAX_DEPTH {
      match t {
        case Word(v) => WordReads(fl, b, i, v, depth);
        case Numeral(n) => NumeralReads(fl, b, i, n, depth);
        case Quoted(us) => QuotedReads(fl, b, i, us, depth);
        case List(_, _) => ListReads(fl, b, i, t, depth);
        case Record(_, _) => RecordReads(fl, b, i, t, depth);
      }
    }
    hide IsTree, Meaning, TreeText;
  }

  /** Skipping space first changes nothing: the loop does so itself. */
  lemma ItemsSkip(fl: Floats, b: seq<byte>, i: nat, depth: nat, acc: seq<Json>)
    requires i <= |b|
    ensures ParseItems(fl, b, SkipSpace(b, i), depth, acc) == ParseItems(fl, b, i, depth, acc)
  {
    SkipTwice(b, i);
    hide SkipSpace, ParseValue;
  }

  lemma {:induction false} SkipTwice(b: seq<byte>, i: nat)
    requires i <= |b|
    ensures SkipSpace(b, SkipSpace(b, i)) == SkipSpace(b, i)
    decreases |b| - i
  {
    if i < |b| && IsSpace(b[i]) {
      SkipTwice(b, i + 1);
    }
  }

  lemma EmptyReads(b: seq<byte>, i: nat, blank: seq<byte>, close: byte)
    requires Blank(blank) && At(b, i, blank + [close]) && !IsSpace(close)
    ensures i <= |b| && SkipSpace(b, i) == i + |blank| && Peek(b, i + |blank|) == Some(close)
  {
    AtSplit(b, i, blank, [close]);
    AtFirst(b, i + |blank|, [close]);
    BlankSkips(b, i, blank);
  }

  lemma ArraySteps(fl: Floats, b: seq<byte>, i: nat, depth: nat)
    requires i <= |b|
    ensures ParseArray(fl, b, i, depth)
            == if Peek(b, SkipSpace(b, i)) == Some(CLOSE_BRACKET) then Got(Arr([]), SkipSpace(b, i) + 1)
               else ParseItems(fl, b, i, depth, [])
  {
    ItemsSkip(fl, b, i, depth, []);
    hide ParseItems, SkipSpace;
  }

  lemma {:induction false} ListReads(fl: Floats, b: seq<byte>, i: nat, t: Tree, depth: nat)
    requires t.List? && IsTree(fl, t) && depth <= MAX_DEPTH && At(b, i, TreeText(t))
    ensures i < |b| && b[i] == OPEN_BRACKET
    ensures Reads(ParseArray(fl, b, i + 1, depth), Shallow(t, depth), Meaning(fl, t), i + |TreeText(t)|)
    decreases t, 0
  {
    hide At, ParseItems, ParseArray, SkipSpace, AreItems, Blank, ItemsText;
    var inside := if t.items == [] then t.blank + [CLOSE_BRACKET] else ItemsText(t.items);
    AtSplit(b, i, [OPEN_BRACKET], inside);
    AtFirst(b, i, [OPEN_BRACKET]);
    ArraySteps(fl, b, i + 1, depth);
    if t.items == [] {
      EmptyReads(b, i + 1, t.blank, CLOSE_BRACKET);
    } else {
      ItemStart(fl, b, i + 1, t.items);
      ItemsRead(fl, b, i + 1, t.items, depth, []);
      assert [] + Meanings(fl, t.items) == Meanings(fl, t.items);
    }
  }

  /** Where the first item stands and what follows it. */
  lemma ItemsPlace(b: seq<byte>, i: nat, items: seq<Item>)
    requires items != [] && At(b, i, ItemsText(items))
    ensures var j := i + |ItemText(items[0])|;
            && At(b, i, ItemText(items[0])) && j < |b|
            && b[j] == (if |items| == 1 then CLOSE_BRACKET else COMMA)
            && (|items| == 1 ==> j + 1 == i + |ItemsText(items)|)
            && (|items| > 1 ==>
                  At(b, j + 1, ItemsText(items[1..]))
                  && j + 1 + |ItemsText(items[1..])| == i + |ItemsText(items)|)
  {
    hide At, ItemText;
    var j := i + |ItemText(items[0])|;
    AtSplit(b, i, ItemText(items[0]), ItemsTail(items));
    AtFirst(b, j, ItemsTail(items));
    if |items| > 1 {
      AtSplit(b, j, [COMMA], ItemsText(items[1..]));
    }
  }

  /** A list's items begin with a value. */
  lemma ItemStart(fl: Floats, b: seq<byte>, i: nat, items: seq<Item>)
    requires items != [] && AreItems(fl, items) && At(b, i, ItemsText(items))
    ensures i <= |b| && Peek(b, SkipSpace(b, i)) != Some(CLOSE_BRACKET)
  {
    ItemsPlace(b, i, items);
    hide At, ItemText, ItemsText;
    ItemPlace(fl, b, i, items[0]);
  }

  /** Where an item's value stands. */
  lemma ItemPlace(fl: Floats, b: seq<byte>, i: nat, it: Item)
    requires IsItem(fl, it) && At(b, i, ItemText(it))
    ensures var p := i + |it.before|;
            && i <= |b| && p < |b| && SkipSpace(b, i) == p && At(b, p, TreeText(it.tree))
            && b[p] != CLOSE_BRACKET && b[p] != CLOSE_BRACE
            && At(b, p + |TreeText(it.tree)|, it.after)
            && p + |TreeText(it.tree)| + |it.after| == i + |ItemText(it)|
  {
    hide At, IsTree;
    AtSplit(b, i, it.before, TreeText(it.tree) + it.after);
    AtSplit(b, i + |it.before|, TreeText(it.tree), it.after);
    TreeFirst(fl, it.tree);
    AtFirst(b, i + |it.before|, TreeText(it.tree));
    BlankSkips(b, i, it.before);
  }

  /** After an item only space stands before what closes or separates. */
  lemma {:induction false} BlankEnds(b: seq<byte>, i: nat, s: seq<byte>)
    requires At(b, i, s) && Blank(s)
    requires Peek(b, i + |s|) in {Some(COMMA), Some(CLOSE_BRACKET), Some(CLOSE_BRACE), None}
    ensures Ends(b, i) && SkipSpace(b, i) == i + |s|
  {
    BlankSkips(b, i, s);
    if s != [] {
      AtFirst(b, i, s);
    }
  }

  /** An item's value, and the place of what follows the item. */
  lemma {:induction false} ItemReads(fl: Floats, b: seq<byte>, i: nat, it: Item, depth: nat)
    requires IsItem(fl, it) && At(b, i, ItemText(it))
    requires Peek(b, i + |ItemText(it)|) in {Some(COMMA), Some(CLOSE_BRACKET), Some(CLOSE_BRACE), None}
    ensures var s := ParseValue(fl, b, SkipSpace(b, i), depth);
            if Shallow(it.tree, depth) then
              s.Got? && s.value == Meaning(fl, it.tree) && SkipSpace(b, s.next) == i + |ItemText(it)|
            else s.Bad?
    decreases it, 0
  {
    hide At, ParseValue, Meaning, Shallow, TreeText, IsTree;
    ItemPlace(fl, b, i, it);
    var p := i + |it.before|;
    BlankEnds(b, p + |TreeText(it.tree)|, it.after);
    TreeReads(fl, b, p, it.tree, depth);
    hide SkipSpace, Ends;
  }

  /** One turn of the array loop. */
  lemma ItemsStep(fl: Floats, b: seq<byte>, i: nat, depth: nat, acc: seq<Json>, s: Step<Json>, j: nat)
    requires i <= |b| && s == ParseValue(fl, b, SkipSpace(b, i), depth + 1) && (s.Got? ==> SkipSpace(b, s.next) == j)
    ensures s.Bad? ==> ParseItems(fl, b, i, depth, acc).Bad?
    ensures s.Got? && Peek(b, j) == Some(COMMA) ==>
      ParseItems(fl, b, i, depth, acc) == ParseItems(fl, b, j + 1, depth, acc + [s.value])
    ensures s.Got? && Peek(b, j) == Some(CLOSE_BRACKET) ==>
      ParseItems(fl, b, i, depth, acc) == Got(Arr(acc + [s.value]), j + 1)
  {
    hide ParseValue, SkipSpace;
  }

  /** The array loop past its first item: an error, the list, or the next turn. */
  lemma {:induction false} ItemTurn(fl: Floats, b: seq<byte>, i: nat, items: seq<Item>, depth: nat, acc: seq<Json>)
    requires items != [] && IsItem(fl, items[0]) && IsTree(fl, items[0].tree) && At(b, i, ItemsText(items))
    ensures i <= |b| && i + |ItemText(items[0])| < |b|
    ensures var s, j := ParseItems(fl, b, i, depth, acc), i + |ItemText(items[0])|;
            if !Shallow(items[0].tree, depth + 1) then s.Bad?
            else
              var done := acc + [Meaning(fl, items[0].tree)];
              s == if |items| == 1 then Got(Arr(done), j + 1) else ParseItems(fl, b, j + 1, depth, done)
    decreases items, 0
  {
    hide At, ItemText, ItemsText, ParseValue, ParseItems, SkipSpace, Meaning, Shallow, IsTree, IsItem, Blank;
    ItemsPlace(b, i, items);
    ItemReads(fl, b, i, items[0], depth + 1);
    ItemsStep(fl, b, i, depth, acc, ParseValue(fl, b, SkipSpace(b, i), depth + 1), i + |ItemText(items[0])|);
  }

  lemma FirstMeaning(fl: Floats, items: seq<Item>, acc: seq<Json>)
    requires items != [] && AreItems(fl, items)
    ensures IsItem(fl, items[0]) && IsTree(fl, items[0].tree)
    ensures acc + [Meaning(fl, items[0].tree)] + Meanings(fl, items[1..]) == acc + Meanings(fl, items)
    ensures |items| == 1 ==> acc + [Meaning(fl, items[0].tree)] == acc + Meanings(fl, items)
  {
    hide Meaning, IsTree, Blank;
  }

  lemma {:induction false} ItemsRead(fl: Floats, b: seq<byte>, i: nat, items: seq<Item>, depth: nat, acc: seq<Json>)
    requires items != [] && AreItems(fl, items) && At(b, i, ItemsText(items))
    ensures i <= |b|
    ensures Reads(ParseItems(fl, b, i, depth, acc), ItemsShallow(items, depth + 1), Arr(acc + Meanings(fl, items)),
                  i + |ItemsText(items)|)
    decreases items, 1
  {
    hide At, ItemText, ItemsText, ParseItems, Meaning, Meanings, Shallow, IsTree, IsItem, Blank;
    FirstMeaning(fl, items, acc);
    var it := items[0];
    ItemsPlace(b, i, items);
    ItemTurn(fl, b, i, items, depth, acc);
    if Shallow(it.tree, depth + 1) {
      var done := acc + [Meaning(fl, it.tree)];
      if |items| > 1 {
        ItemsRead(fl, b, i + |ItemText(it)| + 1, items[1..], depth, done);
      }
    }
  }

  lemma MembersSkip(fl: Floats, b: seq<byte>, i: nat, depth: nat, acc: seq<Member>)
    requires i <= |b|
    ensures ParseMembers(fl, b, SkipSpace(b, i), depth, acc) == ParseMembers(fl, b, i, depth, acc)
  {
    hide SkipSpace, ParseValue, ParseKey;
    KeySkips(b, i);
  }

  lemma KeySkips(b: seq<byte>, i: nat)
    requires i <= |b|
    ensures ParseKey(b, SkipSpace(b, i)) == ParseKey(b, i)
  {
    SkipTwice(b, i);
    hide SkipSpace;
  }

  lemma ObjectSteps(fl: Floats, b: seq<byte>, i: nat, depth: nat)
    requires i <= |b|
    ensures ParseObject(fl, b, i, depth)
            == if Peek(b, SkipSpace(b, i)) == Some(CLOSE_BRACE) then Got(Obj([]), SkipSpace(b, i) + 1)
               else ParseMembers(fl, b, i, depth, [])
  {
    MembersSkip(fl, b, i, depth, []);
    hide ParseMembers, SkipSpace;
  }

  lemma {:induction false} RecordReads(fl: Floats, b: seq<byte>, i: nat, t: Tree, depth: nat)
    requires t.Record? && IsTree(fl, t) && depth <= MAX_DEPTH && At(b, i, TreeText(t))
    ensures i < |b| && b[i] == OPEN_BRACE
    ensures Reads(ParseObject(fl, b, i + 1, depth), Shallow(t, depth), Meaning(fl, t), i + |TreeText(t)|)
    decreases t, 0
  {
    hide At, ParseMembers, ParseObject, SkipSpace, AreFields, Blank, FieldsText;
    var inside := if t.fields == [] then t.blank + [CLOSE_BRACE] else FieldsText(t.fields);
    AtSplit(b, i, [OPEN_BRACE], inside);
    AtFirst(b, i, [OPEN_BRACE]);
    ObjectSteps(fl, b, i + 1, depth);
    if t.fields == [] {
      EmptyReads(b, i + 1, t.blank, CLOSE_BRACE);
    } else {
      FieldStart(fl, b, i + 1, t.fields);
      FieldsRead(fl, b, i + 1, t.fields, depth, []);
    }
  }

  /** Where the first field stands and what follows it. */
  lemma FieldsPlace(b: seq<byte>, i: nat, fields: seq<Field>)
    requires fields != [] && At(b, i, FieldsText(fields))
    ensures var j := i + |FieldText(fields[0])|;
            && At(b, i, FieldText(fields[0])) && j < |b|
            && b[j] == (if |fields| == 1 then CLOSE_BRACE else COMMA)
            && (|fields| == 1 ==> j + 1 == i + |FieldsText(fields)|)
            && (|fields| > 1 ==>
                  At(b, j + 1, FieldsText(fields[1..]))
                  && j + 1 + |FieldsText(fields[1..])| == i + |FieldsText(fields)|)
  {
    hide At, FieldText;
    var j := i + |FieldText(fields[0])|;
    AtSplit(b, i, FieldText(fields[0]), FieldsTail(fields));
    AtFirst(b, j, FieldsTail(fields));
    if |fields| > 1 {
      AtSplit(b, j, [COMMA], FieldsText(fields[1..]));
    }
  }

  /** A record's fields begin with a key. */
  lemma FieldStart(fl: Floats, b: seq<byte>, i: nat, fields: seq<Field>)
    requires fields != [] && AreFields(fl, fields) && At(b, i, FieldsText(fields))
    ensures i <= |b| && Peek(b, SkipSpace(b, i)) != Some(CLOSE_BRACE)
  {
    hide At, KeyPart, ItemText, IsItem, AreUnits, FieldsText;
    var f := fields[0];
    assert IsField(fl, f);
    FieldsPlace(b, i, fields);
    AtSplit(b, i, KeyPart(f), ItemText(f.item));
    KeyReads(b, i, f);
  }

  lemma KeyReads(b: seq<byte>, i: nat, f: Field)
    requires Blank(f.before) && AreUnits(f.key) && Blank(f.gap) && At(b, i, KeyPart(f))
    ensures i <= |b| && Peek(b, SkipSpace(b, i)) == Some(QUOTE)
    ensures ParseKey(b, i) == Got(Denoted(f.key), i + |KeyPart(f)|)
  {
    hide At, Blank, AreUnits, ParseChars, UnitsText;
    var key := [QUOTE] + UnitsText(f.key);
    var p := i + |f.before|;
    var q := p + |key|;
    AtSplit(b, i, f.before, key + (f.gap + [COLON]));
    AtSplit(b, p, key, f.gap + [COLON]);
    AtSplit(b, p, [QUOTE], UnitsText(f.key));
    AtFirst(b, p, [QUOTE]);
    BlankSkips(b, i, f.before);
    UnitsRead(b, p + 1, f.key, []);
    assert [] + Denoted(f.key) == Denoted(f.key);
    EmptyReads(b, q, f.gap, COLON);
  }

  /** One turn of the object loop. */
  lemma MembersStep(fl: Floats, b: seq<byte>, i: nat, depth: nat, acc: seq<Member>, key: Text, h: nat, s: Step<Json>,
                    j: nat)
    requires i <= |b| && ParseKey(b, i) == Got(key, h) && s == ParseValue(fl, b, SkipSpace(b, h), depth + 1)
    requires s.Got? ==> SkipSpace(b, s.next) == j
    ensures s.Bad? ==> ParseMembers(fl, b, i, depth, acc).Bad?
    ensures s.Got? && Peek(b, j) == Some(COMMA) ==>
      ParseMembers(fl, b, i, depth, acc) == ParseMembers(fl, b, j + 1, depth, Insert(acc, key, s.value))
    ensures s.Got? && Peek(b, j) == Some(CLOSE_BRACE) ==>
      ParseMembers(fl, b, i, depth, acc) == Got(Obj(Insert(acc, key, s.value)), j + 1)
  {
    hide ParseValue, ParseKey, SkipSpace;
  }

  lemma FieldParts(fl: Floats, f: Field)
    requires IsField(fl, f)
    ensures Blank(f.before) && AreUnits(f.key) && Blank(f.gap) && IsItem(fl, f.item) && IsTree(fl, f.item.tree)
  {
    hide Blank, AreUnits, IsTree;
  }

  /** A field's key and value, and the place of what follows the field. */
  lemma {:induction false} FieldReads(fl: Floats, b: seq<byte>, i: nat, f: Field, depth: nat, acc: seq<Member>)
    requires IsField(fl, f) && IsTree(fl, f.item.tree) && At(b, i, FieldText(f))
    requires Peek(b, i + |FieldText(f)|) in {Some(COMMA), Some(CLOSE_BRACE)}
    ensures i <= |b|
    ensures var s, j := ParseMembers(fl, b, i, depth, acc), i + |FieldText(f)|;
            if !Shallow(f.item.tree, depth + 1) then s.Bad?
            else
              var done := Insert(acc, Denoted(f.key), Meaning(fl, f.item.tree));
              s == if Peek(b, j) == Some(COMMA) then ParseMembers(fl, b, j + 1, depth, done) else Got(Obj(done), j + 1)
    decreases f, 0
  {
    hide At, ItemText, KeyPart, ParseValue, ParseKey, ParseMembers, SkipSpace, Meaning, Shallow;
    hide IsField, IsTree, IsItem, Blank, AreUnits, Insert, Denoted;
    FieldParts(fl, f);
    var h, j := i + |KeyPart(f)|, i + |FieldText(f)|;
    assert FieldText(f) == KeyPart(f) + ItemText(f.item);
    hide FieldText;
    AtSplit(b, i, KeyPart(f), ItemText(f.item));
    KeyReads(b, i, f);
    ItemReads(fl, b, h, f.item, depth + 1);
    MembersStep(fl, b, i, depth, acc, Denoted(f.key), h, ParseValue(fl, b, SkipSpace(b, h), depth + 1), j);
  }

  lemma {:induction false} FieldsRead(fl: Floats, b: seq<byte>, i: nat, fields: seq<Field>, depth: nat,
                                      acc: seq<Member>)
    requires fields != [] && AreFields(fl, fields) && At(b, i, FieldsText(fields))
    ensures i <= |b|
    ensures Reads(ParseMembers(fl, b, i, depth, acc), FieldsShallow(fields, depth + 1), Obj(Merged(fl, fields, acc)),
                  i + |FieldsText(fields)|)
    decreases fields, 0
  {
    hide IsField, IsItem, At, FieldText, FieldsText, ParseMembers, Meaning, Shallow, IsTree, Blank, AreUnits, Insert,
         Denoted;
    var f := fields[0];
    FieldParts(fl, f);
    var j := i + |FieldText(f)|;
    FieldsPlace(b, i, fields);
    FieldReads(fl, b, i, f, depth, acc);
    if Shallow(f.item.tree, depth + 1) && |fields| > 1 {
      FieldsRead(fl, b, j + 1, fields[1..], depth, Insert(acc, Denoted(f.key), Meaning(fl, f.item.tree)));
    }
  }

  /** Every document, with whatever space around it, parses to what it means unless it nests too deep. */
  lemma DocumentReads(fl: Floats, doc: Item)
    requires IsItem(fl, doc)
    ensures if Shallow(doc.tree, 0) then Parsed(fl, ItemText(doc)) == Ok(Meaning(fl, doc.tree))
            else Parsed(fl, ItemText(doc)).Err?
  {
    hide ParseValue, SkipSpace, Meaning, Shallow, IsTree, TreeText, Blank;
    var b := ItemText(doc);
    AtIsSlice(b, 0, b);
    ItemReads(fl, b, 0, doc, 0);
  }

  // ---- And nothing else is ----

  lemma {:induction false} TreeOnly(fl: Floats, b: seq<byte>, i: nat, depth: nat) returns (t: Tree)
    requires i <= |b| && ParseValue(fl, b, i, depth).Got?
    ensures IsTree(fl, t) && At(b, i, TreeText(t)) && Shallow(t, depth)
    ensures ParseValue(fl, b, i, depth) == Got(Meaning(fl, t), i + |TreeText(t)|)
    decreases |b| - i, 1
  {
    var c := b[i];
    if c == QUOTE {
      t := StringOnly(fl, b, i, depth);
    } else if c == OPEN_BRACKET {
      t := ArrayOnly(fl, b, i, depth);
    } else if c == OPEN_BRACE {
      t := ObjectOnly(fl, b, i, depth);
    } else if c == MINUS || IsDigit(c) {
      t := NumeralOnly(fl, b, i);
    } else {
      t := Word(ParseValue(fl, b, i, depth).value);
    }
    hide At, ParseArray, ParseObject, ParseNumber, ParseChars, NumberText, AreItems, AreFields, AreUnits, Blank,
         ItemsText, FieldsText;
  }

  lemma StringOnly(fl: Floats, b: seq<byte>, i: nat, depth: nat) returns (t: Tree)
    requires i < |b| && b[i] == QUOTE && ParseValue(fl, b, i, depth).Got?
    ensures IsTree(fl, t) && At(b, i, TreeText(t)) && Shallow(t, depth)
    ensures ParseValue(fl, b, i, depth) == Got(Meaning(fl, t), i + |TreeText(t)|)
  {
    var us := UnitsOnly(b, i + 1, []);
    t := Quoted(us);
    AtIsSlice(b, i, [QUOTE]);
    AtJoin(b, i, [QUOTE], UnitsText(us));
    assert [] + Denoted(us) == Denoted(us);
    hide At, ParseChars, UnitsText, Denoted, AreUnits;
  }

  lemma NumeralOnly(fl: Floats, b: seq<byte>, i: nat) returns (t: Tree)
    requires i <= |b| && ParseNumber(fl, b, i).Got?
    ensures t.Numeral? && IsTree(fl, t) && At(b, i, TreeText(t))
    ensures ParseNumber(fl, b, i) == Got(Meaning(fl, t), i + |TreeText(t)|)
  {
    var n := NumbersOnly(b, i);
    t := Numeral(n);
    AtIsSlice(b, i, NumberText(n));
    hide NumberEnd, NumberText, WellFormedNumber, At;
  }

  lemma {:induction false} ArrayOnly(fl: Floats, b: seq<byte>, i: nat, depth: nat) returns (t: Tree)
    requires i < |b| && b[i] == OPEN_BRACKET && ParseArray(fl, b, i + 1, depth).Got? && depth <= MAX_DEPTH
    ensures t.List? && IsTree(fl, t) && At(b, i, TreeText(t)) && Shallow(t, depth)
    ensures ParseArray(fl, b, i + 1, depth) == Got(Meaning(fl, t), i + |TreeText(t)|)
    decreases |b| - i, 0
  {
    hide At, ParseItems, ParseMembers, ParseArray, ParseObject, SkipSpace, ItemsText, FieldsText;
    var j := SkipSpace(b, i + 1);
    AtIsSlice(b, i, [OPEN_BRACKET]);
    ArraySteps(fl, b, i + 1, depth);
    if Peek(b, j) == Some(CLOSE_BRACKET) {
      var blank := b[i + 1..j];
      SkipsBlank(b, i + 1);
      AtIsSlice(b, j, [CLOSE_BRACKET]);
      AtJoin(b, i + 1, blank, [CLOSE_BRACKET]);
      AtJoin(b, i, [OPEN_BRACKET], blank + [CLOSE_BRACKET]);
      t := List(blank, []);
    } else {
      var items := ItemsOnly(fl, b, i + 1, depth, []);
      AtJoin(b, i, [OPEN_BRACKET], ItemsText(items));
      assert [] + Meanings(fl, items) == Meanings(fl, items);
      t := List([], items);
    }
  }

  /** An item where a value reads, with the space around it. */
  lemma {:induction false} ItemOnly(fl: Floats, b: seq<byte>, i: nat, depth: nat) returns (it: Item)
    requires i <= |b| && ParseValue(fl, b, SkipSpace(b, i), depth).Got?
    ensures IsItem(fl, it) && At(b, i, ItemText(it)) && Shallow(it.tree, depth)
    ensures var s := ParseValue(fl, b, SkipSpace(b, i), depth);
            s.value == Meaning(fl, it.tree) && SkipSpace(b, s.next) == i + |ItemText(it)|
    decreases |b| - i, 2
  {
    hide At, ParseValue, SkipSpace, Meaning, Shallow, TreeText, IsTree, Blank;
    var p := SkipSpace(b, i);
    var s := ParseValue(fl, b, p, depth);
    var t := TreeOnly(fl, b, p, depth);
    var k := SkipSpace(b, s.next);
    SkipsBlank(b, i);
    SkipsBlank(b, s.next);
    it := Item(b[i..p], t, b[s.next..k]);
    AtJoin(b, p, TreeText(t), it.after);
    AtJoin(b, i, it.before, TreeText(t) + it.after);
  }

  lemma {:induction false} ItemsOnly(fl: Floats, b: seq<byte>, i: nat, depth: nat, acc: seq<Json>)
    returns (items: seq<Item>)
    requires i <= |b| && ParseItems(fl, b, i, depth, acc).Got?
    ensures items != [] && AreItems(fl, items) && At(b, i, ItemsText(items)) && ItemsShallow(items, depth + 1)
    ensures ParseItems(fl, b, i, depth, acc) == Got(Arr(acc + Meanings(fl, items)), i + |ItemsText(items)|)
    decreases |b| - i, 3
  {
    hide At, ParseValue, SkipSpace, Meaning, Shallow, ItemText, IsTree, Blank;
    var it := ItemOnly(fl, b, i, depth + 1);
    var s := ParseValue(fl, b, SkipSpace(b, i), depth + 1);
    var k := SkipSpace(b, s.next);
    if Peek(b, k) == Some(COMMA) {
      var more := ItemsOnly(fl, b, k + 1, depth, acc + [s.value]);
      items := [it] + more;
      assert items[1..] == more;
      AtIsSlice(b, k, [COMMA]);
      AtJoin(b, k, [COMMA], ItemsText(more));
      AtJoin(b, i, ItemText(it), [COMMA] + ItemsText(more));
      assert acc + [s.value] + Meanings(fl, more) == acc + Meanings(fl, items);
    } else {
      items := [it];
      AtIsSlice(b, k, [CLOSE_BRACKET]);
      AtJoin(b, i, ItemText(it), [CLOSE_BRACKET]);
      assert acc + [s.value] == acc + Meanings(fl, items);
    }
  }

  lemma {:induction false} ObjectOnly(fl: Floats, b: seq<byte>, i: nat, depth: nat) returns (t: Tree)
    requires i < |b| && b[i] == OPEN_BRACE && ParseObject(fl, b, i + 1, depth).Got? && depth <= MAX_DEPTH
    ensures t.Record? && IsTree(fl, t) && At(b, i, TreeText(t)) && Shallow(t, depth)
    ensures ParseObject(fl, b, i + 1, depth) == Got(Meaning(fl, t), i + |TreeText(t)|)
    decreases |b| - i, 0
  {
    hide At, ParseItems, ParseMembers, ParseArray, ParseObject, SkipSpace, ItemsText, FieldsText;
    var j := SkipSpace(b, i + 1);
    AtIsSlice(b, i, [OPEN_BRACE]);
    ObjectSteps(fl, b, i + 1, depth);
    if Peek(b, j) == Some(CLOSE_BRACE) {
      var blank := b[i + 1..j];
      SkipsBlank(b, i + 1);
      AtIsSlice(b, j, [CLOSE_BRACE]);
      AtJoin(b, i + 1, blank, [CLOSE_BRACE]);
      AtJoin(b, i, [OPEN_BRACE], blank + [CLOSE_BRACE]);
      t := Record(blank, []);
    } else {
      var fields := FieldsOnly(fl, b, i + 1, depth, []);
      AtJoin(b, i, [OPEN_BRACE], FieldsText(fields));
      t := Record([], fields);
    }
  }

  /** A key where one reads: its space, its units, and the colon. */
  lemma KeyOnly(b: seq<byte>, i: nat, item: Item) returns (f: Field)
    requires i <= |b| && ParseKey(b, i).Got?
    ensures f.item == item && Blank(f.before) && AreUnits(f.key) && Blank(f.gap) && At(b, i, KeyPart(f))
    ensures ParseKey(b, i) == Got(Denoted(f.key), i + |KeyPart(f)|)
  {
    hide At, Blank, AreUnits, ParseChars, UnitsText, Denoted, SkipSpace;
    var j := SkipSpace(b, i);
    var us := UnitsOnly(b, j + 1, []);
    var k := j + 1 + |UnitsText(us)|;
    var m := SkipSpace(b, k);
    SkipsBlank(b, i);
    SkipsBlank(b, k);
    f := Field(b[i..j], us, b[k..m], item);
    AtIsSlice(b, j, [QUOTE]);
    AtIsSlice(b, m, [COLON]);
    AtJoin(b, k, f.gap, [COLON]);
    AtJoin(b, j, [QUOTE], UnitsText(us));
    AtJoin(b, j, [QUOTE] + UnitsText(us), f.gap + [COLON]);
    AtJoin(b, i, f.before, ([QUOTE] + UnitsText(us)) + (f.gap + [COLON]));
    assert [] + Denoted(us) == Denoted(us);
  }

  lemma {:induction false} FieldsOnly(fl: Floats, b: seq<byte>, i: nat, depth: nat, acc: seq<Member>)
    returns (fields: seq<Field>)
    requires i <= |b| && ParseMembers(fl, b, i, depth, acc).Got?
    ensures fields != [] && AreFields(fl, fields) && At(b, i, FieldsText(fields)) && FieldsShallow(fields, depth + 1)
    ensures ParseMembers(fl, b, i, depth, acc) == Got(Obj(Merged(fl, fields, acc)), i + |FieldsText(fields)|)
    decreases |b| - i, 3
  {
    hide At, ParseValue, ParseKey, SkipSpace, Meaning, Shallow, ItemText, KeyPart, IsTree, IsItem, Blank, AreUnits,
         Insert, Denoted;
    var h := ParseKey(b, i).next;
    var it := ItemOnly(fl, b, h, depth + 1);
    var f := KeyOnly(b, i, it);
    var s := ParseValue(fl, b, SkipSpace(b, h), depth + 1);
    var k := SkipSpace(b, s.next);
    var acc' := Insert(acc, Denoted(f.key), s.value);
    AtJoin(b, i, KeyPart(f), ItemText(it));
    if Peek(b, k) == Some(COMMA) {
      var more := FieldsOnly(fl, b, k + 1, depth, acc');
      fields := [f] + more;
      assert fields[1..] == more;
      AtIsSlice(b, k, [COMMA]);
      AtJoin(b, k, [COMMA], FieldsText(more));
      AtJoin(b, i, FieldText(f), [COMMA] + FieldsText(more));
    } else {
      fields := [f];
      AtIsSlice(b, k, [CLOSE_BRACE]);
      AtJoin(b, i, FieldText(f), [CLOSE_BRACE]);
    }
  }

  /** Whatever parses is a document within the depth limit, and the result is what it means. */
  lemma DocumentOnly(fl: Floats, b: seq<byte>) returns (doc: Item)
    requires Parsed(fl, b).Ok?
    ensures IsItem(fl, doc) && ItemText(doc) == b && Shallow(doc.tree, 0)
    ensures Parsed(fl, b) == Ok(Meaning(fl, doc.tree))
  {
    hide ParseValue, SkipSpace, Meaning, Shallow, IsItem, ItemText;
    doc := ItemOnly(fl, b, 0, 0);
    AtIsSlice(b, 0, ItemText(doc));
  }

  /** The bytes are a document of the grammar within the depth limit, and mean `v`. */
  ghost predicate IsDocument(fl: Floats, doc: Item, b: seq<byte>, v: Json) {
    IsItem(fl, doc) && ItemText(doc) == b && Shallow(doc.tree, 0) && Meaning(fl, doc.tree) == v
  }

  /** The parser accepts exactly the documents of the grammar that nest no deeper than the limit. */
  lemma ParsesIff(fl: Floats, b: seq<byte>, v: Json)
    ensures Parsed(fl, b) == Ok(v) <==> exists doc :: IsDocument(fl, doc, b, v)
  {
    hide Parsed, ItemText, Shallow, Meaning;
    if Parsed(fl, b) == Ok(v) {
      var doc := DocumentOnly(fl, b);
      assert IsDocument(fl, doc, b, v);
    }
    if doc :| IsDocument(fl, doc, b, v) {
      DocumentReads(fl, doc);
    }
  }
}
