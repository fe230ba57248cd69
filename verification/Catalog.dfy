/**
 * Error catalogues: a namespace with its definitions, issuing codes `namespace.key`, and their
 * composition into one lookup. Definitions sit in a plain object, which answers not only for its own
 * keys but also for the names every object inherits.
 */
module Catalog {
  import opened Wrappers
  import opened Basics

  datatype Definition = Definition(category: string, message: string, zh: string)

  /** What a caller past the type checker may hand over; None is a value of the wrong type. */
  datatype Raw = NoObject | Raw(category: Option<string>, message: Option<string>, zh: Option<string>)

  datatype Invalid = Invalid(field: string, value: string)

  /** A lookup in a plain object: a definition, or a member every object has. */
  datatype Found = Own(def: Definition) | Inherited(name: string)

  datatype Catalog = Catalog(namespace: string, keys: seq<string>, defs: map<string, Definition>)

  datatype LookupError = Malformed(Invalid) | KeyMissing(key: string)

  datatype Entry = Entry(code: string, found: Found)

  const CATEGORIES: set<string> := {
    "invalid_input", "not_found", "conflict", "forbidden", "quota_exhausted", "rate_limited", "unavailable"}

  const CONSTRUCTOR := "constructor"

  predicate IsIdentifier(s: string) {
    s != "" && 'a' <= s[0] <= 'z'
    && forall i | 1 <= i < |s| :: 'a' <= s[i] <= 'z' || '0' <= s[i] <= '9' || s[i] == '_'
  }

  function Code(namespace: string, key: string): string {
    namespace + "." + key
  }

  // ----- Defining -----

  predicate IsDefinition(raw: Raw) {
    raw.Raw?
    && raw.category.Some? && raw.category.value in CATEGORIES
    && raw.message.Some? && raw.message.value != ""
    && raw.zh.Some? && raw.zh.value != ""
  }

  function AsDefinition(raw: Raw): Definition
    requires IsDefinition(raw)
  {
    Definition(raw.category.value, raw.message.value, raw.zh.value)
  }

  /** The first check an entry fails. */
  function Fault(namespace: string, key: string, raw: Raw): (r: Option<Invalid>)
    ensures r.None? <==> IsIdentifier(key) && IsDefinition(raw)
  {
    var at := Code(namespace, key);
    if !IsIdentifier(key) then Some(Invalid("key", at))
    else if raw.NoObject? then Some(Invalid("definition", at))
    else if raw.category.None? || raw.category.value !in CATEGORIES then Some(Invalid("category", at))
    else if raw.message.None? || raw.message.value == "" then Some(Invalid("message", at))
    else if raw.zh.None? || raw.zh.value == "" then Some(Invalid("zh", at))
    else None
  }

  /** The first fault is the one named, with the code that the definition would have had. */
  lemma FaultNames(namespace: string, key: string, raw: Raw, field: string, value: string)
    ensures Fault(namespace, key, raw) == Some(Invalid(field, value)) <==>
            && value == namespace + "." + key
            && if !IsIdentifier(key) then field == "key"
               else if raw.NoObject? then field == "definition"
               else if raw.category !in {
                   Some("invalid_input"), Some("not_found"), Some("conflict"), Some("forbidden"),
                   Some("quota_exhausted"), Some("rate_limited"), Some("unavailable")} then field == "category"
               else if raw.message == None || raw.message == Some("") then field == "message"
               else (raw.zh == None || raw.zh == Some("")) && field == "zh"
  {
  }

  /** A lower-case letter, then lower-case letters, digits and underscores, all of ASCII. */
  lemma IdentifierIs(s: string)
    ensures IsIdentifier(s) <==>
            && |s| > 0 && 97 <= s[0] as int <= 122
            && forall i | 0 < i < |s| ::
                 97 <= s[i] as int <= 122 || 48 <= s[i] as int <= 57 || s[i] as int == 95
  {
    assert 'a' as int == 97 && 'z' as int == 122 && '0' as int == 48 && '9' as int == 57 && '_' as int == 95;
  }

  predicate AllValid(namespace: string, entries: seq<(string, Raw)>) {
    forall i | 0 <= i < |entries| :: Fault(namespace, entries[i].0, entries[i].1).None?
  }

  predicate WellFormed(c: Catalog) {
    IsIdentifier(c.namespace) && Distinct(c.keys)
    && (forall k <- c.keys :: IsIdentifier(k) && k in c.defs)
    && (forall k <- c.defs :: k in c.keys)
  }

  /** `entries` are an object's own entries in its order; its keys are distinct. */
  method DefineErrorCatalog(namespace: string, entries: seq<(string, Raw)>) returns (r: Result<Catalog, Invalid>)
    requires forall i, j | 0 <= i < j < |entries| :: entries[i].0 != entries[j].0
    ensures r.Ok? <==> IsIdentifier(namespace) && AllValid(namespace, entries)
    ensures r.Ok? ==> (
      WellFormed(r.value) && r.value.namespace == namespace && |r.value.keys| == |entries|
      && forall i | 0 <= i < |entries| ::
        var (key, raw) := entries[i];
        && r.value.keys[i] == key && raw.Raw?
        && var def := r.value.defs[key];
           raw.category == Some(def.category) && raw.message == Some(def.message) && raw.zh == Some(def.zh))
    ensures r.Err? && !IsIdentifier(namespace) ==> r.error == Invalid("namespace", namespace)
    ensures r.Err? && IsIdentifier(namespace) ==>
      exists i :: 0 <= i < |entries| && AllValid(namespace, entries[..i])
        && Fault(namespace, entries[i].0, entries[i].1) == Some(r.error)
  {
    if !IsIdentifier(namespace) {
      return Err(Invalid("namespace", namespace));
    }
    var keys: seq<string>, frozen: map<string, Definition> := [], map[];
    for n := 0 to |entries|
      invariant AllValid(namespace, entries[..n])
      invariant |keys| == n && WellFormed(Catalog(namespace, keys, frozen))
      invariant forall i | 0 <= i < n ::
        keys[i] == entries[i].0 && IsDefinition(entries[i].1) && frozen[entries[i].0] == AsDefinition(entries[i].1)
    {
      var (key, raw) := entries[n];
      var fault := Fault(namespace, key, raw);
      if fault.Some? {
        return Err(fault.value);
      }
      assert key !in keys;
      keys, frozen := keys + [key], frozen[key := AsDefinition(raw)];
      assert entries[..n + 1] == entries[..n] + [entries[n]];
    }
    assert entries[..|entries|] == entries;
    return Ok(Catalog(namespace, keys, frozen));
  }

  // ----- One catalogue -----

  /** What a plain object answers for a key. */
  function Slot(c: Catalog, key: string): Option<Found> {
    if key in c.defs then Some(Own(c.defs[key]))
    else if key in INHERITED then Some(Inherited(key))
    else None
  }

  function Codes(c: Catalog): seq<string> {
    seq(|c.keys|, i requires 0 <= i < |c.keys| => Code(c.namespace, c.keys[i]))
  }

  function Get(c: Catalog, code: string): Option<Found> {
    var prefix := c.namespace + ".";
    if prefix <= code then Slot(c, code[|prefix|..]) else None
  }

  predicate Has(c: Catalog, code: string) {
    Get(c, code).Some?
  }

  function LookupEntry(c: Catalog, key: string): (r: Result<Entry, LookupError>) {
    if !IsIdentifier(key) then Err(Malformed(Invalid("key", Code(c.namespace, key))))
    else
      var found := Slot(c, key);
      if found.None? then Err(KeyMissing(key)) else Ok(Entry(Code(c.namespace, key), found.value))
  }

  lemma GetIssued(c: Catalog, key: string)
    ensures Get(c, Code(c.namespace, key)) == Slot(c, key)
  {
    var prefix := c.namespace + ".";
    assert Code(c.namespace, key)[|prefix|..] == key;
  }

  /** A code answers with the definition of its key, and an entry carries the code that answers with it. */
  lemma GetOfCode(c: Catalog, key: string)
    requires WellFormed(c) && key in c.keys
    ensures Get(c, c.namespace + "." + key) == Some(Own(c.defs[key]))
    ensures LookupEntry(c, key) == Ok(Entry(c.namespace + "." + key, Own(c.defs[key])))
  {
    GetIssued(c, key);
  }

  /** The suffix names something every object has and the catalogue does not define. */
  predicate Shadowed(c: Catalog, code: string) {
    exists key <- INHERITED :: key !in c.defs && code == Code(c.namespace, key)
  }

  /** A catalogue has exactly its codes, and one more for each inherited name it does not define itself. */
  lemma HasExactly(c: Catalog, code: string)
    requires WellFormed(c)
    ensures Has(c, code) <==> code in Codes(c) || Shadowed(c, code)
    ensures !(code in Codes(c) && Shadowed(c, code))
    ensures Get(c, code).Some? && Get(c, code).value.Own? <==> code in Codes(c)
    ensures forall key | key in INHERITED && key !in c.keys && code == c.namespace + "." + key ::
              Get(c, code) == Some(Inherited(key))
  {
    var prefix := c.namespace + ".";
    if prefix <= code {
      var key := code[|prefix|..];
      assert code == Code(c.namespace, key);
      if key in c.defs {
        var i :| 0 <= i < |c.keys| && c.keys[i] == key;
        assert Codes(c)[i] == code;
      }
    }
    forall i | 0 <= i < |c.keys| && Codes(c)[i] == code ensures Get(c, code) == Some(Own(c.defs[c.keys[i]])) {
      GetIssued(c, c.keys[i]);
    }
    forall key <- INHERITED | key !in c.defs && code == Code(c.namespace, key)
      ensures Get(c, code) == Some(Inherited(key))
    {
      GetIssued(c, key);
    }
  }

  /**
   * Entries are issued for the catalogue's own keys and, where it is not one, for `constructor`. A key
   * that is no identifier is refused with its code, any other with itself.
   */
  lemma EntryExactly(c: Catalog, key: string)
    requires WellFormed(c)
    ensures LookupEntry(c, key).Ok? <==> key in c.keys || key == CONSTRUCTOR
    ensures LookupEntry(c, key).Ok? && LookupEntry(c, key).value.found.Own? <==> key in c.keys
    ensures !IsIdentifier(key) ==> LookupEntry(c, key) == Err(Malformed(Invalid("key", c.namespace + "." + key)))
    ensures IsIdentifier(key) && key !in c.keys ==>
              LookupEntry(c, key) == if key == "constructor" then Ok(Entry(c.namespace + "." + key, Inherited(key)))
                                     else Err(KeyMissing(key))
  {
    if key in INHERITED {
      InheritedIdentifiers(key);
    }
  }

  lemma InheritedIdentifiers(key: string)
    requires key in INHERITED
    ensures IsIdentifier(key) <==> key == CONSTRUCTOR
  {
    assert "hasOwnProperty"[3] == 'O' && "isPrototypeOf"[2] == 'P' && "propertyIsEnumerable"[8] == 'I';
    assert "toLocaleString"[2] == 'L' && "toString"[2] == 'S' && "valueOf"[5] == 'O';
    assert "__proto__"[0] == '_' && "__defineGetter__"[0] == '_' && "__defineSetter__"[0] == '_';
    assert "__lookupGetter__"[0] == '_' && "__lookupSetter__"[0] == '_';
  }

  // ----- Composition -----

  /** All codes one after the other. */
  function AllCodes(cs: seq<Catalog>): seq<string> {
    if cs == [] then [] else Codes(cs[0]) + AllCodes(cs[1..])
  }

  /** A catalogue lists its codes in the order of its keys, and the composition the catalogues in theirs. */
  lemma {:induction false} CodesInOrder(c: Catalog, a: seq<Catalog>, b: seq<Catalog>)
    ensures |AllCodes([c])| == |c.keys|
    ensures forall i | 0 <= i < |c.keys| :: AllCodes([c])[i] == c.namespace + "." + c.keys[i]
    ensures AllCodes([]) == [] && AllCodes(a + b) == AllCodes(a) + AllCodes(b)
  {
    assert AllCodes([c]) == Codes(c) + AllCodes([c][1..]) == Codes(c);
    if a == [] {
      assert a + b == b;
    } else {
      assert (a + b)[1..] == a[1..] + b;
      CodesInOrder(c, a[1..], b);
    }
  }

  function GetAny(cs: seq<Catalog>, code: string): Option<Found> {
    if cs == [] then None
    else if Get(cs[0], code).Some? then Get(cs[0], code)
    else GetAny(cs[1..], code)
  }

  method Lookup(cs: seq<Catalog>, code: string) returns (r: Option<Found>)
    ensures r == GetAny(cs, code)
  {
    for k := 0 to |cs|
      invariant GetAny(cs, code) == GetAny(cs[k..], code)
    {
      var found := Get(cs[k], code);
      if found.Some? {
        return found;
      }
    }
    return None;
  }

  predicate Apart(cs: seq<Catalog>) {
    (forall c <- cs :: WellFormed(c)) && forall i, j | 0 <= i < j < |cs| :: cs[i].namespace != cs[j].namespace
  }

  /** Refuses exactly a repeated namespace, naming the first one that comes again. */
  method ComposeErrorCatalogs(cs: seq<Catalog>) returns (r: Result<seq<string>, string>)
    requires forall c <- cs :: WellFormed(c)
    ensures r.Ok? <==> Apart(cs)
    ensures r.Ok? ==> r.value == AllCodes(cs)
    ensures r.Err? ==>
      exists i, j :: 0 <= i < j < |cs| && cs[i].namespace == cs[j].namespace == r.error && Apart(cs[..j])
  {
    var seen: set<string> := {};
    for j := 0 to |cs|
      invariant Apart(cs[..j])
      invariant forall n :: n in seen <==> exists i :: 0 <= i < j && cs[i].namespace == n
    {
      if cs[j].namespace in seen {
        return Err(cs[j].namespace);
      }
      seen := seen + {cs[j].namespace};
    }
    assert cs[..|cs|] == cs;
    return Ok(AllCodes(cs));
  }

  lemma FirstDot(n: string, k: string)
    requires IsIdentifier(n)
    ensures Code(n, k)[|n|] == '.' && forall i | 0 <= i < |n| :: Code(n, k)[i] != '.'
    ensures Code(n, k)[..|n|] == n && Code(n, k)[|n| + 1..] == k
  {
    forall i | 0 <= i < |n| ensures Code(n, k)[i] != '.' {
      assert Code(n, k)[i] == n[i];
    }
  }

  /** Identifiers have no dot, so a code tells its namespace. */
  lemma CodesDecode(n: string, k: string, m: string, l: string)
    requires IsIdentifier(n) && IsIdentifier(m) && Code(n, k) == Code(m, l)
    ensures n == m && k == l
  {
    FirstDot(n, k);
    FirstDot(m, l);
  }

  lemma AnswerHasPrefix(c: Catalog, code: string) returns (key: string)
    requires Has(c, code)
    ensures code == Code(c.namespace, key)
  {
    key := code[|c.namespace + "."|..];
  }

  lemma AtMostOneAnswers(c: Catalog, d: Catalog, code: string)
    requires WellFormed(c) && WellFormed(d) && c.namespace != d.namespace
    ensures !(Has(c, code) && Has(d, code))
  {
    if Has(c, code) && Has(d, code) {
      var key := AnswerHasPrefix(c, code);
      var other := AnswerHasPrefix(d, code);
      CodesDecode(c.namespace, key, d.namespace, other);
    }
  }

  /** Whoever answers is the answer of the whole, wherever it stands. */
  lemma {:induction false} AnswerStands(cs: seq<Catalog>, code: string, i: nat)
    requires Apart(cs) && i < |cs| && Has(cs[i], code)
    ensures GetAny(cs, code) == Get(cs[i], code)
  {
    if i > 0 {
      AtMostOneAnswers(cs[0], cs[i], code);
      AnswerStands(cs[1..], code, i - 1);
    }
  }

  lemma {:induction false} NoAnswer(cs: seq<Catalog>, code: string)
    requires forall c <- cs :: !Has(c, code)
    ensures GetAny(cs, code) == None
  {
    if cs != [] {
      assert !Has(cs[0], code);
      NoAnswer(cs[1..], code);
    }
  }

  /** The answer does not depend on the order of the catalogues. */
  lemma OrderIsIrrelevant(a: seq<Catalog>, b: seq<Catalog>, code: string)
    requires Apart(a) && Apart(b) && (forall c :: c in a <==> c in b)
    ensures GetAny(a, code) == GetAny(b, code)
  {
    if c :| c in a && Has(c, code) {
      var i :| 0 <= i < |a| && a[i] == c;
      var j :| 0 <= j < |b| && b[j] == c;
      AnswerStands(a, code, i);
      AnswerStands(b, code, j);
    } else {
      NoAnswer(a, code);
      NoAnswer(b, code);
    }
  }

  lemma {:induction false} CodeInAll(cs: seq<Catalog>, code: string)
    ensures code in AllCodes(cs) <==> exists c <- cs :: code in Codes(c)
  {
    if cs != [] {
      CodeInAll(cs[1..], code);
    }
  }

  /** The composition is the disjoint union: it answers for exactly the listed codes, and the inherited names. */
  lemma ComposedHasExactly(cs: seq<Catalog>, code: string)
    requires Apart(cs)
    ensures GetAny(cs, code).Some? <==> code in AllCodes(cs) || exists c <- cs :: Shadowed(c, code)
    ensures forall c <- cs, key <- c.keys :: GetAny(cs, Code(c.namespace, key)) == Some(Own(c.defs[key]))
  {
    CodeInAll(cs, code);
    forall c <- cs ensures Has(c, code) <==> code in Codes(c) || Shadowed(c, code) {
      HasExactly(c, code);
    }
    if c :| c in cs && Has(c, code) {
      var i :| 0 <= i < |cs| && cs[i] == c;
      AnswerStands(cs, code, i);
    } else {
      NoAnswer(cs, code);
    }
    forall c <- cs, key <- c.keys ensures GetAny(cs, Code(c.namespace, key)) == Some(Own(c.defs[key])) {
      var i :| 0 <= i < |cs| && cs[i] == c;
      GetOfCode(c, key);
      AnswerStands(cs, Code(c.namespace, key), i);
    }
  }

  lemma OwnCodesDistinct(c: Catalog)
    requires WellFormed(c)
    ensures Distinct(Codes(c))
  {
    forall i, j | 0 <= i < j < |c.keys| ensures Codes(c)[i] != Codes(c)[j] {
      if Codes(c)[i] == Codes(c)[j] {
        CodesDecode(c.namespace, c.keys[i], c.namespace, c.keys[j]);
      }
    }
  }

  lemma {:induction false} CodesDistinct(cs: seq<Catalog>)
    requires Apart(cs)
    ensures Distinct(AllCodes(cs))
  {
    if cs != [] {
      var rest := AllCodes(cs[1..]);
      CodesDistinct(cs[1..]);
      OwnCodesDistinct(cs[0]);
      forall code | code in Codes(cs[0]) && code in rest ensures false {
        CodeInAll(cs[1..], code);
        var c :| c in cs[1..] && code in Codes(c);
        HasExactly(cs[0], code);
        HasExactly(c, code);
        AtMostOneAnswers(cs[0], c, code);
      }
      DistinctConcat(Codes(cs[0]), rest);
    }
  }

  lemma DistinctConcat<T>(a: seq<T>, b: seq<T>)
    requires Distinct(a) && Distinct(b) && forall x | x in a :: x !in b
    ensures Distinct(a + b)
  {
    var s := a + b;
    forall i, j | 0 <= i < j < |s| ensures s[i] != s[j] {
      if i < |a| && |a| <= j {
        assert s[i] in a && s[j] in b;
      }
    }
  }
}
