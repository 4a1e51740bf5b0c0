/**
  The guard and the schema pass report exactly the rules of a record's shape: which issue is where, and
  nothing else.
*/
module PoeReports {
  import opened Common
  import opened Cbor
  import opened PoeRecord
  import opened PoeIssues
  import opened PoeValidator
  import opened PoeShape
  import opened PoeRules

  // ---------------------------------------------------------------------------
  // Places
  // ---------------------------------------------------------------------------

  /** The place is this node or below it. */
  predicate Under(p: Path, base: Path) {
    base <= p
  }

  /** The way from the node to the place. */
  function Rest(p: Path, base: Path): Path {
    if base <= p then p[|base|..] else []
  }

  /** Reported at this place, at the severity of the code. */
  predicate Marks(x: Issue, code: Code, base: Path, rel: Path) {
    x.code == code && x.severity == SeverityOf(code) && Under(x.path, base) && Rest(x.path, base) == rel
  }

  lemma Ends(p: Path, base: Path, rel: Path)
    ensures p == base + rel <==> Under(p, base) && Rest(p, base) == rel
  {
    if Under(p, base) && Rest(p, base) == rel {
      assert p == p[..|base|] + p[|base|..];
    }
    if p == base + rel {
      assert p[|base|..] == rel;
    }
  }

  /** One step further. */
  lemma Steps(p: Path, base: Path, s: Segment)
    ensures Under(p, base + [s]) <==> Under(p, base) && |Rest(p, base)| >= 1 && Rest(p, base)[0] == s
    ensures Under(p, base + [s]) ==> Rest(p, base + [s]) == Rest(p, base)[1..]
  {
    if Under(p, base) && |Rest(p, base)| >= 1 && Rest(p, base)[0] == s {
      assert p == base + Rest(p, base);
      assert p[..|base| + 1] == base + [s];
    }
    if Under(p, base + [s]) {
      assert p == base + [s] + Rest(p, base + [s]);
      assert p[..|base|] == base;
      assert p[|base|..][1..] == p[|base| + 1..];
    }
  }

  lemma Marked(x: Issue, code: Code, base: Path, rel: Path)
    ensures x == Raise(code, base + rel) <==> Marks(x, code, base, rel)
  {
    Ends(x.path, base, rel);
  }

  lemma MarkedHere(x: Issue, code: Code, base: Path)
    ensures x == Raise(code, base) <==> Marks(x, code, base, [])
  {
    Marked(x, code, base, []);
    assert base + [] == base;
  }

  lemma InRaise(x: Issue, code: Code, base: Path)
    ensures x in [Raise(code, base)] <==> Marks(x, code, base, [])
  {
    MarkedHere(x, code, base);
  }

  lemma InWhen(x: Issue, condition: bool, code: Code, base: Path, rel: Path)
    ensures x in When(condition, code, base + rel) <==> condition && Marks(x, code, base, rel)
  {
    Marked(x, code, base, rel);
  }

  lemma InWhenHere(x: Issue, condition: bool, code: Code, base: Path)
    ensures x in When(condition, code, base) <==> condition && Marks(x, code, base, [])
  {
    MarkedHere(x, code, base);
  }

  // ---------------------------------------------------------------------------
  // Lists and keys
  // ---------------------------------------------------------------------------

  lemma {:induction false} InWalk(f: (Value, nat) -> seq<Issue>, entries: seq<Value>, i: nat, x: Issue)
    requires i <= |entries|
    ensures x in Walk(f, entries, i) <==> exists j :: i <= j < |entries| && x in f(entries[j], j)
    decreases |entries| - i
  {
    if i < |entries| {
      InWalk(f, entries, i + 1, x);
    }
  }

  predicate Lists(m: seq<(Value, Value)>, list: string) {
    Has(m, list) && Get(m, list).value.Array?
  }

  /** An issue of a list's entries is the issue of the entry its place names. */
  lemma InEntries(f: (Value, nat) -> seq<Issue>, m: seq<(Value, Value)>, list: string, base: Path, x: Issue)
    requires Lists(m, list) ==>
      forall j :: 0 <= j < |Get(m, list).value.items| && x in f(Get(m, list).value.items[j], j) ==> Under(x.path, base + [Key(list)] + [Index(j)])
    ensures x in WalkArray(f, Get(m, list)) <==>
      Under(x.path, base) && InList(m, list, Rest(x.path, base)) && x in f(EntryAt(m, list, Rest(x.path, base)), Rest(x.path, base)[1].index)
  {
    hide Get;
    hide Under;
    hide Rest;
    if Lists(m, list) {
      var entries := Get(m, list).value.items;
      InWalk(f, entries, 0, x);
      forall j | 0 <= j < |entries|
        ensures x in f(entries[j], j) ==> InList(m, list, Rest(x.path, base)) && Rest(x.path, base)[1].index == j && Under(x.path, base)
      {
        Steps(x.path, base, Key(list));
        Steps(x.path, base + [Key(list)], Index(j));
      }
    }
  }

  /** The way into an entry of a list. */
  lemma IntoEntry(m: seq<(Value, Value)>, list: string, p: Path, base: Path, j: nat)
    ensures Under(p, base + [Key(list)] + [Index(j)]) <==>
      Under(p, base) && |Rest(p, base)| >= 2 && Rest(p, base)[0] == Key(list) && Rest(p, base)[1] == Index(j)
    ensures Under(p, base + [Key(list)] + [Index(j)]) ==> Rest(p, base + [Key(list)] + [Index(j)]) == Rest(p, base)[2..]
  {
    hide Under;
    hide Rest;
    Steps(p, base, Key(list));
    Steps(p, base + [Key(list)], Index(j));
    if |Rest(p, base)| >= 2 {
      assert Rest(p, base)[1..][1..] == Rest(p, base)[2..];
    }
  }

  lemma {:induction false} HasKey(m: seq<(Value, Value)>, key: string)
    ensures key in TextKeys(m) <==> Has(m, key)
  {
    if m != [] {
      HasKey(m[1..], key);
    }
  }

  lemma {:induction false} InUnknown(keys: seq<string>, known: seq<string>, code: Code, base: Path, x: Issue)
    ensures x in UnknownKeys(keys, known, code, base) <==>
      Under(x.path, base) && |Rest(x.path, base)| == 1 && Rest(x.path, base)[0].Key? && Marks(x, code, base, Rest(x.path, base))
      && Rest(x.path, base)[0].key in keys && Rest(x.path, base)[0].key !in known
  {
    hide Under;
    hide Rest;
    hide Raise;
    if keys != [] {
      InUnknown(keys[1..], known, code, base, x);
      InWhen(x, keys[0] !in known, code, base, [Key(keys[0])]);
    }
  }

  /** A key outside the closed set. */
  lemma InClosed(m: seq<(Value, Value)>, known: seq<string>, code: Code, base: Path, x: Issue)
    ensures x in UnknownKeys(TextKeys(m), known, code, base) <==>
      Marks(x, code, base, Rest(x.path, base)) && AtKey(m, Rest(x.path, base)) && Rest(x.path, base)[0].key !in known
  {
    hide Under;
    hide Rest;
    hide UnknownKeys;
    InUnknown(TextKeys(m), known, code, base, x);
    if |Rest(x.path, base)| == 1 && Rest(x.path, base)[0].Key? {
      HasKey(m, Rest(x.path, base)[0].key);
    }
  }

  ghost predicate Checks(ok: Value -> bool, kind: Kind) {
    forall v :: ok(v) <==> Is(v, kind)
  }

  lemma KindsChecked()
    ensures Checks(IsText, TextKind) && Checks(IsBytes, BytesKind) && Checks(IsInteger, IntegerKind)
    ensures Checks(IsMap, MapKind) && Checks(IsArray, ArrayKind)
  {
  }

  lemma InRequired(m: seq<(Value, Value)>, key: string, ok: Value -> bool, kind: Kind, missing: Code, wrong: Code, base: Path, x: Issue)
    requires Checks(ok, kind)
    ensures x in RequiredField(m, key, ok, missing, wrong, base) <==>
      (!Has(m, key) && Marks(x, missing, base, [Key(key)])) || (Wrong(m, key, kind) && Marks(x, wrong, base, [Key(key)]))
  {
    hide Get;
    hide Is;
    hide Marks;
    Marked(x, missing, base, [Key(key)]);
    Marked(x, wrong, base, [Key(key)]);
  }

  lemma InOptional(m: seq<(Value, Value)>, key: string, ok: Value -> bool, kind: Kind, wrong: Code, base: Path, x: Issue)
    requires Checks(ok, kind)
    ensures x in OptionalField(m, key, ok, wrong, base) <==> Wrong(m, key, kind) && Marks(x, wrong, base, [Key(key)])
  {
    hide Get;
    hide Is;
    hide Marks;
    Marked(x, wrong, base, [Key(key)]);
  }

  /** A list of texts. */
  lemma InElements(m: seq<(Value, Value)>, list: string, base: Path, x: Issue)
    ensures x in Elements(Get(m, list), IsText, base + [Key(list)]) <==>
      || (Marks(x, SchemaTypeMismatch, base, [Key(list)]) && Wrong(m, list, ArrayKind))
      || (Marks(x, SchemaTypeMismatch, base, Rest(x.path, base)) && |Rest(x.path, base)| == 2 && InList(m, list, Rest(x.path, base))
          && !EntryAt(m, list, Rest(x.path, base)).Text?)
  {
    hide Get;
    hide Under;
    hide Rest;
    hide Walk;
    hide Raise;
    var f := ElementCheck(IsText, base + [Key(list)]);
    Marked(x, SchemaTypeMismatch, base, [Key(list)]);
    if Lists(m, list) {
      var entries := Get(m, list).value.items;
      forall j | 0 <= j < |entries|
        ensures x in f(entries[j], j) <==> !entries[j].Text? && Marks(x, SchemaTypeMismatch, base + [Key(list)] + [Index(j)], [])
      {
        assert f(entries[j], j) == When(!IsText(entries[j]), SchemaTypeMismatch, base + [Key(list)] + [Index(j)]);
        MarkedHere(x, SchemaTypeMismatch, base + [Key(list)] + [Index(j)]);
      }
      InEntries(f, m, list, base, x);
      if InList(m, list, Rest(x.path, base)) {
        IntoEntry(m, list, x.path, base, Rest(x.path, base)[1].index);
      }
    }
  }

  /** Entries of the record's own lists. */
  lemma TopEntries(f: (Value, nat) -> seq<Issue>, m: seq<(Value, Value)>, list: string, x: Issue)
    requires Lists(m, list) ==>
      forall j :: 0 <= j < |Get(m, list).value.items| && x in f(Get(m, list).value.items[j], j) ==> Under(x.path, [Key(list), Index(j)])
    ensures x in WalkArray(f, Get(m, list)) <==>
      InList(m, list, x.path) && x in f(EntryAt(m, list, x.path), x.path[1].index)
  {
    hide Get;
    hide WalkArray;
    if Lists(m, list) {
      forall j | 0 <= j < |Get(m, list).value.items|
        ensures [] + [Key(list)] + [Index(j)] == [Key(list), Index(j)]
      {
      }
    }
    InEntries(f, m, list, [], x);
    assert Rest(x.path, []) == x.path;
  }

  lemma TopEntry(p: Path, list: string, j: nat)
    ensures Under(p, [Key(list), Index(j)]) <==> |p| >= 2 && p[0] == Key(list) && p[1] == Index(j)
    ensures Under(p, [Key(list), Index(j)]) ==> Rest(p, [Key(list), Index(j)]) == p[2..]
  {
    if |p| >= 2 && p[0] == Key(list) && p[1] == Index(j) {
      assert p[..2] == [Key(list), Index(j)];
    }
  }

  // ---------------------------------------------------------------------------
  // The guard
  // ---------------------------------------------------------------------------

  lemma NonTextMap(v: Value)
    ensures NonTextKeyMap(Some(v)) <==> NonText(v)
  {
  }

  lemma NonTextField(m: seq<(Value, Value)>, key: string)
    ensures NonTextKeyMap(Get(m, key)) <==> Has(m, key) && NonText(Get(m, key).value)
  {
    hide Get;
  }

  lemma GuardPlain(field: string, entry: Value, i: nat, x: Issue)
    requires field != "items"
    ensures x in GuardEntry(field, entry, i) <==> Marks(x, SchemaTypeMismatch, [Key(field), Index(i)], []) && NonText(entry)
  {
    hide NonTextKeyMap;
    hide NonText;
    hide Marks;
    NonTextMap(entry);
    InRaise(x, SchemaTypeMismatch, [Key(field), Index(i)]);
  }

  lemma GuardInner(m: seq<(Value, Value)>, key: string, base: Path, x: Issue)
    ensures x in When(NonTextKeyMap(Get(m, key)), SchemaTypeMismatch, base + [Key(key)]) <==>
      Marks(x, SchemaTypeMismatch, base, [Key(key)]) && Has(m, key) && NonText(Get(m, key).value)
  {
    hide NonText;
    hide Marks;
    hide When;
    InWhen(x, NonTextKeyMap(Get(m, key)), SchemaTypeMismatch, base, [Key(key)]);
    NonTextField(m, key);
  }

  lemma GuardItem(entry: Value, i: nat, x: Issue)
    ensures x in GuardEntry("items", entry, i) <==>
      Marks(x, SchemaTypeMismatch, [Key("items"), Index(i)], Rest(x.path, [Key("items"), Index(i)]))
      && NonTextInItem(entry, Rest(x.path, [Key("items"), Index(i)]))
  {
    hide NonTextKeyMap;
    hide NonText;
    hide Under;
    hide Rest;
    hide When;
    hide Raise;
    hide Get;
    var base := [Key("items"), Index(i)];
    NonTextMap(entry);
    InRaise(x, SchemaTypeMismatch, base);
    if entry.Map? {
      GuardInner(entry.pairs, "hashes", base, x);
      GuardInner(entry.pairs, "enc", base, x);
    }
  }

  /** The guard reports the keys that are no text, and nothing else. */
  lemma GuardReports(v: Value, x: Issue)
    ensures x in GuardIssues(v) <==> x.code == SchemaTypeMismatch && x.severity == ErrorSeverity && NonTextAt(v, x.path)
  {
    hide NonTextKeyMap;
    hide NonText;
    hide NonTextInItem;
    hide Get;
    hide Under;
    hide Rest;
    hide WalkArray;
    hide GuardEntry;
    NonTextMap(v);
    if v.Map? {
      GuardList(v.pairs, "items", x);
      GuardList(v.pairs, "merkle", x);
      GuardList(v.pairs, "sigs", x);
    }
  }

  lemma GuardList(m: seq<(Value, Value)>, list: string, x: Issue)
    ensures x in WalkArray(GuardField(list), Get(m, list)) <==>
      && x.code == SchemaTypeMismatch && x.severity == ErrorSeverity && InList(m, list, x.path)
      && if list == "items" then NonTextInItem(EntryAt(m, list, x.path), x.path[2..])
         else NonText(EntryAt(m, list, x.path)) && x.path[2..] == []
  {
    hide NonText;
    hide NonTextInItem;
    hide Get;
    hide Under;
    hide Rest;
    hide WalkArray;
    hide GuardEntry;
    if Lists(m, list) {
      var entries := Get(m, list).value.items;
      forall j | 0 <= j < |entries|
        ensures x in GuardField(list)(entries[j], j) ==> Under(x.path, [Key(list), Index(j)])
      {
        assert GuardField(list)(entries[j], j) == GuardEntry(list, entries[j], j);
        if list == "items" {
          GuardItem(entries[j], j, x);
        } else {
          GuardPlain(list, entries[j], j, x);
        }
      }
    }
    TopEntries(GuardField(list), m, list, x);
    if InList(m, list, x.path) {
      var entry, j := EntryAt(m, list, x.path), x.path[1].index;
      assert GuardField(list)(entry, j) == GuardEntry(list, entry, j);
      TopEntry(x.path, list, j);
      if list == "items" {
        GuardItem(entry, j, x);
      } else {
        GuardPlain(list, entry, j, x);
      }
    }
  }

  /** The guard passes exactly the values all of whose keys are text. */
  lemma GuardPasses(v: Value)
    ensures GuardIssues(v) == [] <==> !exists p :: NonTextAt(v, p)
  {
    hide GuardIssues;
    hide NonTextAt;
    if GuardIssues(v) != [] {
      GuardReports(v, GuardIssues(v)[0]);
    }
    if p :| NonTextAt(v, p) {
      GuardReports(v, Issue(p, SchemaTypeMismatch, ErrorSeverity));
    }
  }

  // ---------------------------------------------------------------------------
  // The schema pass
  // ---------------------------------------------------------------------------

  lemma HeadOnly(m: seq<(Value, Value)>)
    requires KeysDistinct(m) && m != [] && m[0].0.Text?
    ensures !Has(m[1..], m[0].0.text)
  {
    hide Get;
    forall i | 0 <= i < |m[1..]|
      ensures m[1..][i].0 != m[0].0
    {
      assert m[1..][i] == m[i + 1];
    }
    NotFound(m[1..], m[0].0.text);
  }

  lemma {:induction false} NotFound(m: seq<(Value, Value)>, key: string)
    requires forall i :: 0 <= i < |m| ==> m[i].0 != Text(key)
    ensures !Has(m, key)
  {
    if m != [] {
      NotFound(m[1..], key);
    }
  }

  lemma {:induction false} InSchemaDigests(m: seq<(Value, Value)>, base: Path, x: Issue)
    requires KeysDistinct(m)
    ensures x in SchemaDigests(m, base) <==>
      Marks(x, SchemaTypeMismatch, base, Rest(x.path, base)) && AtKey(m, Rest(x.path, base))
      && !Get(m, Rest(x.path, base)[0].key).value.ByteString?
  {
    hide Under;
    hide Rest;
    hide Raise;
    hide KeysDistinct;
    if m != [] {
      TailDistinct(m);
      InSchemaDigests(m[1..], base, x);
      if m[0].0.Text? {
        HeadOnly(m);
        InWhen(x, !m[0].1.ByteString?, SchemaTypeMismatch, base, [Key(m[0].0.text)]);
      }
    }
  }

  lemma InSchemaHashes(m: seq<(Value, Value)>, base: Path, x: Issue)
    requires Has(m, "hashes") && Get(m, "hashes").value.Map? ==> KeysDistinct(Get(m, "hashes").value.pairs)
    ensures x in SchemaHashes(Get(m, "hashes"), base + [Key("hashes")]) <==>
      || (!Has(m, "hashes") && Marks(x, SchemaMissingRequired, base, [Key("hashes")]))
      || (Wrong(m, "hashes", MapKind) && Marks(x, SchemaTypeMismatch, base, [Key("hashes")]))
      || (Marks(x, SchemaTypeMismatch, base, Rest(x.path, base)) && |Rest(x.path, base)| == 2 && InField(m, "hashes", Rest(x.path, base))
          && Get(m, "hashes").value.Map? && AtKey(Get(m, "hashes").value.pairs, Rest(x.path, base)[1..])
          && !Get(Get(m, "hashes").value.pairs, Rest(x.path, base)[1].key).value.ByteString?)
  {
    hide Get;
    hide Under;
    hide Rest;
    hide Raise;
    hide SchemaDigests;
    hide KeysDistinct;
    Marked(x, SchemaMissingRequired, base, [Key("hashes")]);
    Marked(x, SchemaTypeMismatch, base, [Key("hashes")]);
    Steps(x.path, base, Key("hashes"));
    if Has(m, "hashes") && Get(m, "hashes").value.Map? {
      InSchemaDigests(Get(m, "hashes").value.pairs, base + [Key("hashes")], x);
    }
  }

  /** Every map of an item has each key once. */
  ghost predicate HashKeysDistinct(item: Value) {
    item.Map? && Has(item.pairs, "hashes") && Get(item.pairs, "hashes").value.Map? ==> KeysDistinct(Get(item.pairs, "hashes").value.pairs)
  }

  lemma ItemReports(entry: Value, i: nat, x: Issue)
    requires HashKeysDistinct(entry)
    ensures x in SchemaItem(entry, i) <==>
      Under(x.path, [Key("items"), Index(i)]) && x.severity == ErrorSeverity && ItemMisshapen(entry, x.code, Rest(x.path, [Key("items"), Index(i)]))
  {
    hide Get;
    hide Under;
    hide Rest;
    hide Raise;
    hide SchemaHashes;
    hide Elements;
    hide UnknownKeys;
    hide KeysDistinct;
    hide Is;
    var base := [Key("items"), Index(i)];
    InRaise(x, SchemaTypeMismatch, base);
    if entry.Map? {
      InSchemaHashes(entry.pairs, base, x);
      InElements(entry.pairs, "uris", base, x);
      InClosed(entry.pairs, ["hashes", "uris", "enc"], SchemaUnknownField, base, x);
    }
  }

  lemma CommitReports(entry: Value, i: nat, x: Issue)
    ensures x in SchemaMerkle(entry, i) <==>
      Under(x.path, [Key("merkle"), Index(i)]) && x.severity == ErrorSeverity && CommitMisshapen(entry, x.code, Rest(x.path, [Key("merkle"), Index(i)]))
  {
    hide Get;
    hide Under;
    hide Rest;
    hide Raise;
    hide RequiredField;
    hide Elements;
    hide UnknownKeys;
    hide Is;
    hide Checks;
    var base := [Key("merkle"), Index(i)];
    InRaise(x, SchemaTypeMismatch, base);
    if entry.Map? {
      KindsChecked();
      InRequired(entry.pairs, "alg", IsText, TextKind, SchemaMissingRequired, SchemaTypeMismatch, base, x);
      InRequired(entry.pairs, "root", IsBytes, BytesKind, SchemaMissingRequired, SchemaTypeMismatch, base, x);
      InRequired(entry.pairs, "leaf_count", IsInteger, IntegerKind, SchemaTypeMismatch, SchemaTypeMismatch, base, x);
      InElements(entry.pairs, "uris", base, x);
      InClosed(entry.pairs, ["alg", "root", "leaf_count", "uris"], SchemaUnknownField, base, x);
    }
  }

  lemma SigReports(entry: Value, i: nat, x: Issue)
    ensures x in SchemaSig(entry, i) <==>
      Under(x.path, [Key("sigs"), Index(i)]) && x.severity == ErrorSeverity && SigMisshapen(entry, x.code, Rest(x.path, [Key("sigs"), Index(i)]))
  {
    hide Get;
    hide Under;
    hide Rest;
    hide Raise;
    hide RequiredField;
    hide OptionalField;
    hide UnknownKeys;
    hide Is;
    hide Checks;
    var base := [Key("sigs"), Index(i)];
    InRaise(x, SigEntryInvalidShape, base);
    if entry.Map? {
      KindsChecked();
      InRequired(entry.pairs, "cose_sign1", IsBytes, BytesKind, SigEntryInvalidShape, SigEntryInvalidShape, base, x);
      InOptional(entry.pairs, "cose_key", IsBytes, BytesKind, SigEntryInvalidShape, base, x);
      InClosed(entry.pairs, ["cose_sign1", "cose_key"], SigEntryInvalidShape, base, x);
    }
  }

  lemma ItemsReport(m: seq<(Value, Value)>, x: Issue)
    requires Lists(m, "items") ==> forall j :: 0 <= j < |Get(m, "items").value.items| ==> HashKeysDistinct(Get(m, "items").value.items[j])
    ensures x in WalkArray(SchemaItem, Get(m, "items")) <==>
      InList(m, "items", x.path) && x.severity == ErrorSeverity && ItemMisshapen(EntryAt(m, "items", x.path), x.code, x.path[2..])
  {
    hide Get;
    hide Under;
    hide Rest;
    hide WalkArray;
    hide SchemaItem;
    hide ItemMisshapen;
    hide HashKeysDistinct;
    if Lists(m, "items") {
      var entries := Get(m, "items").value.items;
      forall j | 0 <= j < |entries|
        ensures x in SchemaItem(entries[j], j) ==> Under(x.path, [Key("items"), Index(j)])
      {
        ItemReports(entries[j], j, x);
      }
    }
    TopEntries(SchemaItem, m, "items", x);
    if InList(m, "items", x.path) {
      TopEntry(x.path, "items", x.path[1].index);
      ItemReports(EntryAt(m, "items", x.path), x.path[1].index, x);
    }
  }

  lemma CommitsReport(m: seq<(Value, Value)>, x: Issue)
    ensures x in WalkArray(SchemaMerkle, Get(m, "merkle")) <==>
      InList(m, "merkle", x.path) && x.severity == ErrorSeverity && CommitMisshapen(EntryAt(m, "merkle", x.path), x.code, x.path[2..])
  {
    hide Get;
    hide Under;
    hide Rest;
    hide WalkArray;
    hide SchemaMerkle;
    hide CommitMisshapen;
    if Lists(m, "merkle") {
      var entries := Get(m, "merkle").value.items;
      forall j | 0 <= j < |entries|
        ensures x in SchemaMerkle(entries[j], j) ==> Under(x.path, [Key("merkle"), Index(j)])
      {
        CommitReports(entries[j], j, x);
      }
    }
    TopEntries(SchemaMerkle, m, "merkle", x);
    if InList(m, "merkle", x.path) {
      TopEntry(x.path, "merkle", x.path[1].index);
      CommitReports(EntryAt(m, "merkle", x.path), x.path[1].index, x);
    }
  }

  lemma SigsReport(m: seq<(Value, Value)>, x: Issue)
    ensures x in WalkArray(SchemaSig, Get(m, "sigs")) <==>
      InList(m, "sigs", x.path) && x.severity == ErrorSeverity && SigMisshapen(EntryAt(m, "sigs", x.path), x.code, x.path[2..])
  {
    hide Get;
    hide Under;
    hide Rest;
    hide WalkArray;
    hide SchemaSig;
    hide SigMisshapen;
    if Lists(m, "sigs") {
      var entries := Get(m, "sigs").value.items;
      forall j | 0 <= j < |entries|
        ensures x in SchemaSig(entries[j], j) ==> Under(x.path, [Key("sigs"), Index(j)])
      {
        SigReports(entries[j], j, x);
      }
    }
    TopEntries(SchemaSig, m, "sigs", x);
    if InList(m, "sigs", x.path) {
      TopEntry(x.path, "sigs", x.path[1].index);
      SigReports(EntryAt(m, "sigs", x.path), x.path[1].index, x);
    }
  }

  /** The version and the predecessor. */
  lemma ScalarsReport(m: seq<(Value, Value)>, x: Issue)
    ensures x in SchemaVersion(Get(m, "v")) <==>
      x.path == [Key("v")] && x.severity == ErrorSeverity
      && ((x.code == SchemaMissingRequired && !Has(m, "v"))
          || (x.code == SchemaInvalidLiteral && Has(m, "v") && Get(m, "v").value != Unsigned(1)))
    ensures x in SchemaSupersedes(Get(m, "supersedes")) <==>
      x.path == [Key("supersedes")] && x.severity == ErrorSeverity
      && ((x.code == SchemaTypeMismatch && Wrong(m, "supersedes", BytesKind))
          || (x.code == SupersedesTxInvalidLength && Has(m, "supersedes")
              && Get(m, "supersedes").value.ByteString? && |Get(m, "supersedes").value.bytes| != 32))
  {
    hide Get;
  }

  lemma ListFieldReports(m: seq<(Value, Value)>, key: string, x: Issue)
    ensures x in OptionalField(m, key, IsArray, SchemaTypeMismatch, []) <==>
      x.code == SchemaTypeMismatch && x.severity == ErrorSeverity && x.path == [Key(key)] && Wrong(m, key, ArrayKind)
  {
    hide Get;
    hide OptionalField;
    hide Is;
    hide Checks;
    KindsChecked();
    InOptional(m, key, IsArray, ArrayKind, SchemaTypeMismatch, [], x);
    assert Rest(x.path, []) == x.path;
  }

  lemma CritReports(m: seq<(Value, Value)>, x: Issue)
    ensures x in Elements(Get(m, "crit"), IsText, [Key("crit")]) <==>
      && x.code == SchemaTypeMismatch && x.severity == ErrorSeverity
      && ((x.path == [Key("crit")] && Wrong(m, "crit", ArrayKind))
          || (|x.path| == 2 && InList(m, "crit", x.path) && !EntryAt(m, "crit", x.path).Text?))
  {
    hide Get;
    hide Elements;
    hide Is;
    assert [] + [Key("crit")] == [Key("crit")];
    InElements(m, "crit", [], x);
    assert Rest(x.path, []) == x.path;
  }

  /** The maps under the items of an encodable record have each key once. */
  lemma ItemKeysDistinct(m: seq<(Value, Value)>)
    requires WellFormed(Map(m)) && Lists(m, "items")
    ensures forall j :: 0 <= j < |Get(m, "items").value.items| ==> HashKeysDistinct(Get(m, "items").value.items[j])
  {
    hide Get;
    hide WellFormed;
    hide KeysDistinct;
    var entries := Get(m, "items").value.items;
    FieldWellFormed(m, "items");
    ArrayParts(entries);
    forall j | 0 <= j < |entries|
      ensures HashKeysDistinct(entries[j])
    {
      if entries[j].Map? && Has(entries[j].pairs, "hashes") && Get(entries[j].pairs, "hashes").value.Map? {
        FieldWellFormed(entries[j].pairs, "hashes");
        MapParts(Get(entries[j].pairs, "hashes").value.pairs);
      }
    }
  }

  /** The schema pass reports what is misshapen, and nothing else. */
  lemma SchemaReports(m: seq<(Value, Value)>, x: Issue)
    requires WellFormed(Map(m))
    ensures x in SchemaIssues(m) <==> x.severity == ErrorSeverity && Misshapen(m, x.code, x.path)
  {
    hide Get;
    hide WellFormed;
    hide WalkArray;
    hide Elements;
    hide OptionalField;
    hide SchemaVersion;
    hide SchemaSupersedes;
    hide ItemMisshapen;
    hide CommitMisshapen;
    hide SigMisshapen;
    hide HashKeysDistinct;
    hide Is;
    if Lists(m, "items") {
      ItemKeysDistinct(m);
    }
    ScalarsReport(m, x);
    ListFieldReports(m, "items", x);
    ListFieldReports(m, "merkle", x);
    ListFieldReports(m, "sigs", x);
    CritReports(m, x);
    ItemsReport(m, x);
    CommitsReport(m, x);
    SigsReport(m, x);
  }

  /** The schema pass lets through exactly the records with nothing misshapen. */
  lemma SchemaPasses(m: seq<(Value, Value)>)
    requires WellFormed(Map(m))
    ensures SchemaIssues(m) == [] <==> !exists c, p :: Misshapen(m, c, p)
  {
    hide WellFormed;
    hide SchemaIssues;
    hide Misshapen;
    if SchemaIssues(m) != [] {
      SchemaReports(m, SchemaIssues(m)[0]);
    }
    if c, p :| Misshapen(m, c, p) {
      SchemaReports(m, Issue(p, c, ErrorSeverity));
    }
  }
}
