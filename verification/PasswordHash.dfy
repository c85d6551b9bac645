/** The stored-hash format and its print/parse/verify cycle (`backend/src/kdf.rs`). */
module PasswordHash {
  import opened Bits
  import opened Decimal
  import opened Outcomes
  import opened Scrypt
  import Base64

  // ---- Bytes as the codec sees them ----

  function ToBv(bytes: seq<byte>): (s: seq<bv8>)
    ensures |s| == |bytes|
  {
    seq(|bytes|, i requires 0 <= i < |bytes| => bytes[i] as bv8)
  }

  function FromBv(s: seq<bv8>): (bytes: seq<byte>)
    ensures |bytes| == |s|
  {
    seq(|s|, i requires 0 <= i < |s| => s[i] as int)
  }

  lemma BvRoundTrip(bytes: seq<byte>)
    ensures FromBv(ToBv(bytes)) == bytes
  {
    forall i | 0 <= i < |bytes|
      ensures FromBv(ToBv(bytes))[i] == bytes[i]
    {
      ByteRoundTrip(bytes[i]);
    }
  }

  lemma ByteRoundTrip(b: int)
    requires 0 <= b < 0x100
    ensures (b as bv8) as int == b
  {
    NibblesRoundTrip(b / 0x10, b % 0x10);
  }

  lemma NibblesRoundTrip(high: int, low: int)
    requires 0 <= high < 0x10 && 0 <= low < 0x10
    ensures ((0x10 * high + low) as bv8) as int == 0x10 * high + low
  {
  }

  function UrlText(bytes: seq<byte>): string {
    Base64.Encoded(ToBv(bytes), Base64.URL, false)
  }

  function UrlBytes(s: string): Option<seq<byte>> {
    match Base64.Decoded(s)
    case None => None
    case Some(b) => Some(FromBv(b))
  }

  /** `str::parse::<u32>`. */
  function ParseU32(s: string): Option<u32> {
    ParseUnsigned(s, 0x1_0000_0000)
  }

  // ---- Fields ----

  /** `str::split(sep)`: always at least one field. */
  function Split(s: string, sep: char): (fields: seq<string>)
    ensures |fields| >= 1
  {
    if s == "" then [""]
    else
      var rest := Split(s[1..], sep);
      if s[0] == sep then [""] + rest else [[s[0]] + rest[0]] + rest[1..]
  }

  function Join(fields: seq<string>, sep: char): string
    requires |fields| >= 1
  {
    if |fields| == 1 then fields[0] else fields[0] + [sep] + Join(fields[1..], sep)
  }

  lemma {:induction false} SplitPlain(s: string, sep: char)
    requires sep !in s
    ensures Split(s, sep) == [s]
    decreases |s|
  {
    if s != "" {
      SplitPlain(s[1..], sep);
      assert [s[0]] + s[1..] == s;
    }
  }

  lemma {:induction false} SplitFirst(s: string, sep: char, rest: string)
    requires sep !in s
    ensures Split(s + [sep] + rest, sep) == [s] + Split(rest, sep)
    decreases |s|
  {
    var t := s + [sep] + rest;
    if s == "" {
      assert t[1..] == rest;
    } else {
      assert t[1..] == s[1..] + [sep] + rest;
      SplitFirst(s[1..], sep, rest);
      assert [s[0]] + s[1..] == s;
      assert ([s[1..]] + Split(rest, sep))[1..] == Split(rest, sep);
    }
  }

  /** Splitting undoes joining when no field holds the separator. */
  lemma {:induction false} SplitJoined(fields: seq<string>, sep: char)
    requires |fields| >= 1 && forall i | 0 <= i < |fields| :: sep !in fields[i]
    ensures Split(Join(fields, sep), sep) == fields
    decreases |fields|
  {
    if |fields| == 1 {
      SplitPlain(fields[0], sep);
    } else {
      SplitFirst(fields[0], sep, Join(fields[1..], sep));
      SplitJoined(fields[1..], sep);
    }
  }

  // ---- The two layouts ----

  const PREFIX: string := "scrypt$"

  /** `scrypt$<n>$<r>$<p>$<salt>$<key>`. */
  function HashText(q: Params, salt: seq<byte>, key: seq<byte>): string {
    PREFIX + Join([DecimalText(q.n), DecimalText(q.r), DecimalText(q.p), UrlText(salt), UrlText(key)], '$')
  }

  /** `scrypt$<salt>$<key>`, written before parameters were recorded. */
  function LegacyText(salt: seq<byte>, key: seq<byte>): string {
    PREFIX + Join([UrlText(salt), UrlText(key)], '$')
  }

  datatype ParsedHash = ParsedHash(params: Params, salt: seq<byte>, key: seq<byte>)

  /** The parameters a hash states; the parameterless layout always means these three numbers. */
  function StatedParams(fields: seq<string>): Option<Params> {
    if |fields| == 2 then Some(Params(16384, 8, 1))
    else if |fields| == 5 && ParseU32(fields[0]).Some? && ParseU32(fields[1]).Some? && ParseU32(fields[2]).Some? then
      Some(Params(ParseU32(fields[0]).value, ParseU32(fields[1]).value, ParseU32(fields[2]).value))
    else None
  }

  /** `parse_scrypt_hash`. */
  function ParseScryptHash(stored: string): Option<ParsedHash> {
    if PREFIX <= stored then ParseFields(Split(stored[|PREFIX|..], '$')) else None
  }

  function ParseFields(fields: seq<string>): Option<ParsedHash> {
    var params := StatedParams(fields);
    if params.None? || !WithinLimits(params.value) then None
    else
      var salt, key := UrlBytes(fields[|fields| - 2]), UrlBytes(fields[|fields| - 1]);
      if salt.None? || key.None? then None else Some(ParsedHash(params.value, salt.value, key.value))
  }

  /** `needs_rehash`. */
  predicate NeedsRehash(stored: string) {
    ParseScryptHash(stored).None? || ParseScryptHash(stored).value.params != CURRENT
  }

  const KEY_LEN: nat := 64

  /** What `verify_password` answers; `legacy` stands for the bcrypt verifier. */
  predicate Accepts(f: Primitives, legacy: (seq<byte>, string) -> bool, password: seq<byte>, stored: string) {
    if PREFIX <= stored then
      match ParseScryptHash(stored)
      case None => false
      case Some(h) =>
        h.params.n >= 1 && h.params.r >= 1
        && h.key == ScryptKey(f, password, h.salt, h.params.n, h.params.r, h.params.p, KEY_LEN)
    else "$2" <= stored && legacy(password, stored)
  }

  // ---- Stored hashes, as the format is documented ----

  ghost predicate IsBase64(text: string, bytes: seq<byte>) {
    Base64.IsDecoding(text, ToBv(bytes))
  }

  /** `scrypt$`, the cost unless it is the first one, and salt and key in base64. */
  ghost predicate IsLayout(stored: string, q: Params, a: string, b: string) {
    || (stored == "scrypt$" + a + "$" + b && q == Params(16384, 8, 1))
    || exists n, r, p ::
         && stored == "scrypt$" + n + "$" + r + "$" + p + "$" + a + "$" + b
         && IsNumber(n, q.n) && IsNumber(r, q.r) && IsNumber(p, q.p)
  }

  /** A power of two from 2 on, at most 16 lanes, and at most 256 MiB. */
  ghost predicate IsAdmitted(q: Params) {
    && q.n >= 2 && IsSomePow2(q.n) && q.r >= 1 && 1 <= q.p <= 16
    && 128 * q.n * q.r <= 0x1000_0000
  }

  ghost predicate IsStored(stored: string, q: Params, salt: seq<byte>, key: seq<byte>) {
    IsAdmitted(q) && exists a, b :: IsLayout(stored, q, a, b) && IsBase64(a, salt) && IsBase64(b, key)
  }

  /** Splitting finds the fields between the separators, and only those. */
  lemma {:induction false} JoinSplit(s: string, sep: char)
    ensures Join(Split(s, sep), sep) == s
    ensures forall i | 0 <= i < |Split(s, sep)| :: sep !in Split(s, sep)[i]
    decreases |s|
  {
    if s != "" {
      var rest := Split(s[1..], sep);
      JoinSplit(s[1..], sep);
      if s[0] == sep {
        assert ([""] + rest)[1..] == rest;
      } else {
        assert ([[s[0]] + rest[0]] + rest[1..])[1..] == rest[1..];
        assert [s[0]] + s[1..] == s;
      }
    }
  }

  lemma JoinTwo(a: string, b: string)
    ensures Join([a, b], '$') == a + "$" + b
  {
    assert [a, b][1..] == [b];
  }

  lemma JoinFive(n: string, r: string, p: string, a: string, b: string)
    ensures Join([n, r, p, a, b], '$') == n + "$" + r + "$" + p + "$" + a + "$" + b
  {
    var rest := [r, p, a, b];
    assert [n, r, p, a, b][1..] == rest && rest[1..] == [p, a, b] && [p, a, b][1..] == [a, b];
    JoinTwo(a, b);
    assert Join([p, a, b], '$') == p + "$" + (a + "$" + b);
    assert Join(rest, '$') == r + "$" + (p + "$" + (a + "$" + b));
    assert Join([n, r, p, a, b], '$') == n + "$" + (r + "$" + (p + "$" + (a + "$" + b)));
  }

  lemma AdmittedIs(q: Params)
    ensures IsAdmitted(q) <==> WithinLimits(q)
  {
    PowerOfTwoIff(q.n);
    hide IsPowerOfTwo, Pow2;
    if q.r >= 1 {
      AtLeast(q.n, q.r);
    }
  }

  lemma AtLeast(n: nat, r: nat)
    requires r >= 1
    ensures 128 * n <= 128 * n * r
  {
    MulMonotone(1, r, 128 * n);
    assert r * (128 * n) == 128 * n * r;
  }

  lemma NumberIs(text: string, v: u32)
    ensures IsNumber(text, v) <==> ParseU32(text) == Some(v)
    ensures IsNumber(text, v) ==> '$' !in text
  {
    UnsignedIff(text, 0x1_0000_0000, v);
    if IsNumeral(text, v) {
      NumeralIs(text, v);
      NoDollarIn(text);
    } else if IsNumber(text, v) {
      var digits :| text == "+" + digits && IsNumeral(digits, v);
      NumeralIs(digits, v);
      NoDollarIn(digits);
    }
  }

  lemma NoDollarIn(digits: string)
    requires AllDecimal(digits)
    ensures '$' !in digits
  {
    assert forall i | 0 <= i < |digits| :: IsDecimal(digits[i]);
  }

  lemma Base64Is(text: string, bytes: seq<byte>)
    ensures IsBase64(text, bytes) <==> UrlBytes(text) == Some(bytes)
    ensures IsBase64(text, bytes) ==> '$' !in text
  {
    hide ToBv, FromBv;
    Base64.DecodedIff(text, ToBv(bytes));
    BvRoundTrip(bytes);
    if Base64.Decoded(text).Some? {
      BvBack(Base64.Decoded(text).value);
    }
    if IsBase64(text, bytes) {
      NoDollarInBase64(text, ToBv(bytes));
    }
    hide Base64.Decoded, Base64.IsDecoding;
  }

  lemma NoDollarInBase64(text: string, bytes: seq<bv8>)
    requires Base64.IsDecoding(text, bytes)
    ensures '$' !in text
  {
    var vs: seq<Base64.Sextet> :| Base64.Spell(vs, text) && |vs| % 4 != 1 && Base64.AreEights(bytes, vs);
    forall i | 0 <= i < |text|
      ensures text[i] != '$'
    {
      if i < |vs| {
        Base64.LetterValue(vs[i]);
      }
    }
  }

  lemma BvBack(bv: seq<bv8>)
    ensures ToBv(FromBv(bv)) == bv
  {
    forall i | 0 <= i < |bv|
      ensures ToBv(FromBv(bv))[i] == bv[i]
    {
      ByteBack(bv[i]);
    }
  }

  lemma ByteBack(b: bv8)
    ensures (b as int) as bv8 == b
  {
  }

  lemma TwoFieldsParse(a: string, b: string, salt: seq<byte>, key: seq<byte>)
    requires IsBase64(a, salt) && IsBase64(b, key)
    ensures ParseScryptHash("scrypt$" + a + "$" + b) == Some(ParsedHash(Params(16384, 8, 1), salt, key))
  {
    Base64Is(a, salt);
    Base64Is(b, key);
    CurrentWithinLimits();
    assert ParseFields([a, b]) == Some(ParsedHash(Params(16384, 8, 1), salt, key));
    hide IsBase64, ParseFields;
    SplitTwo(a, b);
  }

  lemma SplitTwo(a: string, b: string)
    requires '$' !in a && '$' !in b
    ensures var text := "scrypt$" + a + "$" + b; PREFIX <= text && Split(text[|PREFIX|..], '$') == [a, b]
  {
    JoinTwo(a, b);
    SplitJoined([a, b], '$');
    assert ("scrypt$" + a + "$" + b)[|PREFIX|..] == a + "$" + b;
    hide Join, Split;
  }

  lemma FiveFieldsParse(n: string, r: string, p: string, a: string, b: string,
                        q: Params, salt: seq<byte>, key: seq<byte>)
    requires IsNumber(n, q.n) && IsNumber(r, q.r) && IsNumber(p, q.p)
    requires WithinLimits(q) && IsBase64(a, salt) && IsBase64(b, key)
    ensures ParseScryptHash("scrypt$" + n + "$" + r + "$" + p + "$" + a + "$" + b)
         == Some(ParsedHash(q, salt, key))
  {
    Base64Is(a, salt);
    Base64Is(b, key);
    NumberIs(n, q.n);
    NumberIs(r, q.r);
    NumberIs(p, q.p);
    hide IsBase64, WithinLimits, UrlBytes, IsNumber, ParseU32;
    assert ParseFields([n, r, p, a, b]) == Some(ParsedHash(q, salt, key));
    hide ParseFields;
    SplitFive(n, r, p, a, b);
  }

  lemma SplitFive(n: string, r: string, p: string, a: string, b: string)
    requires '$' !in n && '$' !in r && '$' !in p && '$' !in a && '$' !in b
    ensures var text := "scrypt$" + n + "$" + r + "$" + p + "$" + a + "$" + b;
            PREFIX <= text && Split(text[|PREFIX|..], '$') == [n, r, p, a, b]
  {
    JoinFive(n, r, p, a, b);
    var fields := [n, r, p, a, b];
    SplitJoined(fields, '$');
    hide Join, Split;
    AfterPrefix(n + "$" + r + "$" + p + "$" + a + "$" + b);
    Prefixed(n, r, p, a, b);
  }

  lemma AfterPrefix(rest: string)
    ensures PREFIX <= PREFIX + rest && (PREFIX + rest)[|PREFIX|..] == rest
  {
  }

  lemma Prefixed(n: string, r: string, p: string, a: string, b: string)
    ensures "scrypt$" + n + "$" + r + "$" + p + "$" + a + "$" + b
         == PREFIX + (n + "$" + r + "$" + p + "$" + a + "$" + b)
  {
    var tail := "$" + a + "$" + b;
    var head := n + "$" + r + "$" + p;
    assert "scrypt$" + n + "$" + r + "$" + p == PREFIX + head;
    assert (PREFIX + head) + "$" + a + "$" + b == (PREFIX + head) + tail == PREFIX + (head + tail);
    assert head + tail == head + "$" + a + "$" + b;
  }

  lemma LayoutParses(stored: string, q: Params, salt: seq<byte>, key: seq<byte>, a: string, b: string)
    requires WithinLimits(q) && IsLayout(stored, q, a, b) && IsBase64(a, salt) && IsBase64(b, key)
    ensures ParseScryptHash(stored) == Some(ParsedHash(q, salt, key))
  {
    hide IsBase64, WithinLimits, IsNumber, ParseScryptHash;
    if stored == "scrypt$" + a + "$" + b && q == Params(16384, 8, 1) {
      TwoFieldsParse(a, b, salt, key);
    } else {
      var n, r, p :|
        && stored == "scrypt$" + n + "$" + r + "$" + p + "$" + a + "$" + b
        && IsNumber(n, q.n) && IsNumber(r, q.r) && IsNumber(p, q.p);
      FiveFieldsParse(n, r, p, a, b, q, salt, key);
    }
  }

  lemma ParsedLayout(stored: string)
    requires ParseScryptHash(stored).Some?
    ensures var h := ParseScryptHash(stored).value;
            WithinLimits(h.params) && exists a, b ::
              IsLayout(stored, h.params, a, b) && IsBase64(a, h.salt) && IsBase64(b, h.key)
  {
    hide IsBase64, WithinLimits, UrlBytes, ParseU32, IsLayout;
    var h, fields := ParseScryptHash(stored).value, Split(stored[|PREFIX|..], '$');
    JoinSplit(stored[|PREFIX|..], '$');
    assert stored == PREFIX + Join(fields, '$');
    var a, b := fields[|fields| - 2], fields[|fields| - 1];
    Base64Is(a, h.salt);
    Base64Is(b, h.key);
    FieldsLayout(fields, h.params);
  }

  lemma FieldsLayout(fields: seq<string>, q: Params)
    requires StatedParams(fields) == Some(q)
    ensures IsLayout(PREFIX + Join(fields, '$'), q, fields[|fields| - 2], fields[|fields| - 1])
  {
    hide Join, IsLayout, ParseU32;
    if |fields| == 2 {
      assert fields == [fields[0], fields[1]];
      TwoLayout(fields[0], fields[1]);
    } else {
      assert fields == [fields[0], fields[1], fields[2], fields[3], fields[4]];
      FiveLayout(fields[0], fields[1], fields[2], fields[3], fields[4], q);
    }
  }

  lemma TwoLayout(a: string, b: string)
    ensures IsLayout(PREFIX + Join([a, b], '$'), Params(16384, 8, 1), a, b)
  {
    JoinTwo(a, b);
    hide Join;
    assert PREFIX + (a + "$" + b) == "scrypt$" + a + "$" + b;
  }

  lemma FiveLayout(n: string, r: string, p: string, a: string, b: string, q: Params)
    requires ParseU32(n) == Some(q.n) && ParseU32(r) == Some(q.r) && ParseU32(p) == Some(q.p)
    ensures IsLayout(PREFIX + Join([n, r, p, a, b], '$'), q, a, b)
  {
    NumberIs(n, q.n);
    NumberIs(r, q.r);
    NumberIs(p, q.p);
    JoinFive(n, r, p, a, b);
    Prefixed(n, r, p, a, b);
    hide Join, IsNumber, ParseU32, StatedParams;
  }

  /** A text parses to a cost, a salt and a key exactly if it is a layout of them and the cost is admitted. */
  lemma StoredIff(stored: string, q: Params, salt: seq<byte>, key: seq<byte>)
    ensures IsStored(stored, q, salt, key) <==> ParseScryptHash(stored) == Some(ParsedHash(q, salt, key))
  {
    hide IsLayout, IsBase64, IsAdmitted, WithinLimits;
    AdmittedIs(q);
    if IsStored(stored, q, salt, key) {
      var a, b :| IsLayout(stored, q, a, b) && IsBase64(a, salt) && IsBase64(b, key);
      LayoutParses(stored, q, salt, key, a, b);
    } else if ParseScryptHash(stored) == Some(ParsedHash(q, salt, key)) {
      ParsedLayout(stored);
    }
    hide ParseScryptHash;
  }

  /** The password derives the key that the text states, at the cost and salt it states. */
  ghost predicate IsKeyOf(f: Primitives, password: seq<byte>, stored: string) {
    exists q, salt, key ::
      && IsStored(stored, q, salt, key) && |key| == 64
      && q.n >= 1 && q.r >= 1 && IsScrypt(f, password, salt, q.n, q.r, q.p, key)
  }

  /** Which texts accept a password, whatever the text: a text that is no stored hash accepts none. */
  lemma AcceptsIff(f: Primitives, legacy: (seq<byte>, string) -> bool, password: seq<byte>, stored: string)
    ensures Accepts(f, legacy, password, stored)
       <==> IsKeyOf(f, password, stored) || ("$2" <= stored && legacy(password, stored))
    ensures IsKeyOf(f, password, stored) ==> "scrypt$" <= stored
    ensures "scrypt$" <= stored ==> !("$2" <= stored)
  {
    hide IsStored, IsScrypt, ParseScryptHash, ScryptKey;
    if ParseScryptHash(stored).Some? {
      var h := ParseScryptHash(stored).value;
      StoredIff(stored, h.params, h.salt, h.key);
      ParsedPrefix(stored);
      ScryptIs(f, password, h.salt, h.params.n, h.params.r, h.params.p, h.key);
    }
    if IsKeyOf(f, password, stored) {
      var q, salt, key :|
        && IsStored(stored, q, salt, key) && |key| == 64
        && q.n >= 1 && q.r >= 1 && IsScrypt(f, password, salt, q.n, q.r, q.p, key);
      StoredIff(stored, q, salt, key);
    }
    if "scrypt$" <= stored {
      assert stored[0] == "scrypt$"[0];
    }
  }

  lemma ParsedPrefix(stored: string)
    requires ParseScryptHash(stored).Some?
    ensures PREFIX <= stored && WithinLimits(ParseScryptHash(stored).value.params)
  {
  }

  /** The text states today's cost, this salt, and the 64-byte key that the password derives from them. */
  ghost predicate Records(f: Primitives, password: seq<byte>, salt: seq<byte>, stored: string) {
    exists key :: |key| == 64 && IsStored(stored, Params(16384, 8, 1), salt, key)
                  && IsScrypt(f, password, salt, 16384, 8, 1, key)
  }

  /** What `hash_password` prints states the key, after today's cost. */
  lemma HashTextIs(f: Primitives, password: seq<byte>, salt: seq<byte>)
    ensures var stored := HashText(CURRENT, salt, ScryptKey(f, password, salt, 16384, 8, 1, KEY_LEN));
            "scrypt$16384$8$1$" <= stored && Records(f, password, salt, stored)
  {
    hide IsStored, IsScrypt, ScryptKey, ParseScryptHash;
    var key := ScryptKey(f, password, salt, 16384, 8, 1, KEY_LEN);
    var stored := HashText(CURRENT, salt, key);
    CurrentWithinLimits();
    ParseHashText(CURRENT, salt, key);
    StoredIff(stored, CURRENT, salt, key);
    ScryptIs(f, password, salt, 16384, 8, 1, key);
    CostText(UrlText(salt), UrlText(key));
  }

  lemma CostText(a: string, b: string)
    ensures "scrypt$16384$8$1$" <= PREFIX + Join([DecimalText(16384), DecimalText(8), DecimalText(1), a, b], '$')
  {
    assert DecimalText(16) == "16" && DecimalText(163) == "163" && DecimalText(1638) == "1638";
    assert DecimalText(16384) == "16384" && DecimalText(8) == "8" && DecimalText(1) == "1";
    hide DecimalText;
    JoinFive("16384", "8", "1", a, b);
    hide Join;
    Prefixed("16384", "8", "1", a, b);
    assert "scrypt$16384$8$1$" == PREFIX + "16384" + "$" + "8" + "$" + "1" + "$";
  }

  /** A text of two fields accepts a password exactly if the second is the 64-byte key derived at the first cost. */
  lemma TwoFieldsAccept(f: Primitives, password: seq<byte>, a: string, salt: seq<byte>, b: string, key: seq<byte>)
    requires IsBase64(a, salt) && IsBase64(b, key)
    ensures IsKeyOf(f, password, "scrypt$" + a + "$" + b)
       <==> |key| == 64 && IsScrypt(f, password, salt, 16384, 8, 1, key)
  {
    hide IsScrypt, IsBase64;
    var stored := "scrypt$" + a + "$" + b;
    var q := Params(16384, 8, 1);
    CurrentWithinLimits();
    AdmittedIs(q);
    assert IsLayout(stored, q, a, b);
    hide IsLayout, IsAdmitted, WithinLimits;
    assert IsStored(stored, q, salt, key);
    StoredIff(stored, q, salt, key);
    hide IsStored, ParseScryptHash;
    if IsKeyOf(f, password, stored) {
      var q', salt', key' :|
        && IsStored(stored, q', salt', key') && |key'| == 64
        && q'.n >= 1 && q'.r >= 1 && IsScrypt(f, password, salt', q'.n, q'.r, q'.p, key');
      StoredIff(stored, q', salt', key');
    }
  }

  // ---- The code ----

  /** `ct_eq`. */
  method CtEq(a: seq<byte>, b: seq<byte>) returns (same: bool)
    ensures same <==> a == b
  {
    if |a| != |b| {
      return false;
    }
    var diff: bv8 := 0;
    for i := 0 to |a|
      invariant diff == 0 <==> a[..i] == b[..i]
    {
      XorZero(a[i], b[i], diff);
      assert a[..i + 1] == a[..i] + [a[i]] && b[..i + 1] == b[..i] + [b[i]];
      diff := diff | (a[i] as bv8 ^ b[i] as bv8);
    }
    assert a[..|a|] == a && b[..|b|] == b;
    same := diff == 0;
  }

  lemma XorZero(x: byte, y: byte, d: bv8)
    ensures d | (x as bv8 ^ y as bv8) == 0 <==> d == 0 && x == y
  {
    ByteRoundTrip(x);
    ByteRoundTrip(y);
    XorBv(x as bv8, y as bv8, d);
  }

  lemma XorBv(x: bv8, y: bv8, d: bv8)
    ensures d | (x ^ y) == 0 <==> d == 0 && x == y
  {
  }

  /** `hash_password`; the random salt is an argument. */
  method HashPassword(f: Primitives, password: seq<byte>, salt: seq<byte>) returns (stored: Result<string, ScryptError>)
    ensures stored
         == Ok(HashText(CURRENT, salt, ScryptKey(f, password, salt, CURRENT.n, CURRENT.r, CURRENT.p, KEY_LEN)))
    ensures stored.Ok? && "scrypt$16384$8$1$" <= stored.value && Records(f, password, salt, stored.value)
  {
    hide ScryptKey, IsScrypt, HashText;
    HashTextIs(f, password, salt);
    hide Records, WithinLimits;
    CurrentWithinLimits();
    LimitsSuffice(CURRENT, KEY_LEN);
    var key := DeriveScrypt(f, password, salt, CURRENT.n, CURRENT.r, CURRENT.p, KEY_LEN);
    match key {
      case Err(e) => stored := Err(e);
      case Ok(k) =>
        var text := FormatHash(salt, k);
        stored := Ok(text);
    }
  }

  /** The `format!` of `hash_password`. */
  method FormatHash(salt: seq<byte>, key: seq<byte>) returns (text: string)
    ensures text == HashText(CURRENT, salt, key)
  {
    var saltText := Base64.EncodeWith(ToBv(salt), Base64.URL, false);
    var keyText := Base64.EncodeWith(ToBv(key), Base64.URL, false);
    var n, r, p := DecimalText(CURRENT.n), DecimalText(CURRENT.r), DecimalText(CURRENT.p);
    text := PREFIX + Join([n, r, p, saltText, keyText], '$');
  }

  /** `verify_password`. */
  method VerifyPassword(f: Primitives, legacy: (seq<byte>, string) -> bool, password: seq<byte>, stored: string)
    returns (ok: bool)
    ensures ok == Accepts(f, legacy, password, stored)
    ensures "scrypt$" <= stored ==> (ok <==> IsKeyOf(f, password, stored))
    ensures "$2" <= stored ==> (ok <==> legacy(password, stored))
    ensures !("scrypt$" <= stored) && !("$2" <= stored) ==> !ok
  {
    AcceptsIff(f, legacy, password, stored);
    hide IsKeyOf, IsScrypt, ScryptKey;
    if PREFIX <= stored {
      var parsed := ParseScryptHash(stored);
      if parsed.None? {
        return false;
      }
      var q := parsed.value.params;
      LimitsSuffice(q, KEY_LEN);
      var candidate := DeriveScrypt(f, password, parsed.value.salt, q.n, q.r, q.p, KEY_LEN);
      if candidate.Err? {
        return false;
      }
      ok := CtEq(parsed.value.key, candidate.value);
      return;
    }
    return "$2" <= stored && legacy(password, stored);
  }

  // ---- The cycle ----

  lemma NoDollar(bytes: seq<byte>, n: nat)
    ensures '$' !in UrlText(bytes) && '$' !in DecimalText(n)
  {
    var vs := Base64.Sextets(ToBv(bytes));
    Base64.ValuesOfLetters(vs, Base64.URL);
    forall i | 0 <= i < |vs|
      ensures UrlText(bytes)[i] != '$'
    {
      assert Base64.Val(Base64.Letters(vs, Base64.URL)[i]).Some?;
    }
    DecimalRoundTrip(n);
    NoDollarIn(DecimalText(n));
  }

  lemma UrlRoundTrip(bytes: seq<byte>)
    ensures UrlBytes(UrlText(bytes)) == Some(bytes)
  {
    Base64.DecodingUndoesEncoding(ToBv(bytes), Base64.URL, false);
    BvRoundTrip(bytes);
  }

  /** Parsing a printed hash gives back its parameters, salt and key, if the limits admit the parameters. */
  lemma ParseHashText(q: Params, salt: seq<byte>, key: seq<byte>)
    ensures ParseScryptHash(HashText(q, salt, key))
         == if WithinLimits(q) then Some(ParsedHash(q, salt, key)) else None
  {
    var fields := [DecimalText(q.n), DecimalText(q.r), DecimalText(q.p), UrlText(salt), UrlText(key)];
    NoDollar(salt, q.n);
    NoDollar(key, q.r);
    NoDollar(key, q.p);
    SplitJoined(fields, '$');
    assert HashText(q, salt, key)[|PREFIX|..] == Join(fields, '$');
    ParsePrinted(q.n, 0x1_0000_0000);
    ParsePrinted(q.r, 0x1_0000_0000);
    ParsePrinted(q.p, 0x1_0000_0000);
    UrlRoundTrip(salt);
    UrlRoundTrip(key);
    hide UrlBytes, UrlText, ParseU32, WithinLimits, DecimalText;
  }

  /** The parameterless layout keeps the meaning it had when it was written. */
  lemma ParseLegacyText(salt: seq<byte>, key: seq<byte>)
    ensures ParseScryptHash(LegacyText(salt, key)) == Some(ParsedHash(Params(16384, 8, 1), salt, key))
  {
    var fields := [UrlText(salt), UrlText(key)];
    NoDollar(salt, 0);
    NoDollar(key, 0);
    SplitJoined(fields, '$');
    assert LegacyText(salt, key)[|PREFIX|..] == Join(fields, '$');
    CurrentWithinLimits();
    UrlRoundTrip(salt);
    UrlRoundTrip(key);
  }

  /** No text is a print of both layouts. */
  lemma LayoutsNeverConfused(q: Params, salt: seq<byte>, key: seq<byte>, salt': seq<byte>, key': seq<byte>)
    ensures HashText(q, salt, key) != LegacyText(salt', key')
  {
    NoDollar(salt, q.n);
    NoDollar(key, q.r);
    NoDollar(salt', q.p);
    NoDollar(key', 0);
    var five := [DecimalText(q.n), DecimalText(q.r), DecimalText(q.p), UrlText(salt), UrlText(key)];
    var two := [UrlText(salt'), UrlText(key')];
    SplitJoined(five, '$');
    SplitJoined(two, '$');
    assert HashText(q, salt, key)[|PREFIX|..] == Join(five, '$');
    assert LegacyText(salt', key')[|PREFIX|..] == Join(two, '$');
  }

  /** A stored hash at any admitted cost accepts exactly the passwords that derive its key. */
  lemma AcceptsExactlyTheKey(f: Primitives, legacy: (seq<byte>, string) -> bool, password: seq<byte>,
                             q: Params, salt: seq<byte>, key: seq<byte>)
    requires WithinLimits(q)
    ensures Accepts(f, legacy, password, HashText(q, salt, key))
       <==> key == ScryptKey(f, password, salt, q.n, q.r, q.p, KEY_LEN)
  {
    ParseHashText(q, salt, key);
  }

  /** What `hash_password` writes verifies, and is not due for a rewrite. */
  lemma HashThenVerify(f: Primitives, legacy: (seq<byte>, string) -> bool, password: seq<byte>, salt: seq<byte>)
    ensures var key := ScryptKey(f, password, salt, CURRENT.n, CURRENT.r, CURRENT.p, KEY_LEN);
            var stored := HashText(CURRENT, salt, key);
            Accepts(f, legacy, password, stored) && !NeedsRehash(stored)
  {
    CurrentWithinLimits();
    ParseHashText(CURRENT, salt, ScryptKey(f, password, salt, CURRENT.n, CURRENT.r, CURRENT.p, KEY_LEN));
  }

  /** Of every text: no rewrite is due exactly if it is a stored hash at today's cost. */
  lemma RehashIff(stored: string)
    ensures NeedsRehash(stored) <==> !exists salt, key :: IsStored(stored, Params(16384, 8, 1), salt, key)
  {
    hide IsStored, ParseScryptHash;
    if ParseScryptHash(stored).Some? {
      var h := ParseScryptHash(stored).value;
      StoredIff(stored, h.params, h.salt, h.key);
    }
    if exists salt, key :: IsStored(stored, Params(16384, 8, 1), salt, key) {
      var salt, key :| IsStored(stored, Params(16384, 8, 1), salt, key);
      StoredIff(stored, Params(16384, 8, 1), salt, key);
    }
  }

  /** A rewrite is due exactly when the recorded cost is not today's. */
  lemma RehashIffCostDiffers(q: Params, salt: seq<byte>, key: seq<byte>)
    ensures NeedsRehash(HashText(q, salt, key)) <==> q != CURRENT
  {
    CurrentWithinLimits();
    ParseHashText(q, salt, key);
  }

  /** Whatever a row says, if it parses then the derivation succeeds within the memory limit. */
  lemma ParsedCostIsBounded(stored: string)
    requires ParseScryptHash(stored).Some?
    ensures var q := ParseScryptHash(stored).value.params;
            Refusal(q.n, q.r, q.p, KEY_LEN) == None && 4 * (q.n * (32 * q.r)) <= MAX_STORED_MEMORY
  {
    LimitsSuffice(ParseScryptHash(stored).value.params, KEY_LEN);
  }
}
