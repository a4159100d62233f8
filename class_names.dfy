/**
 * Translation of the classifier's technical class labels (`class_hola`, ...)
 * into the Spanish text shown to the user.
 *
 * The translation is written over any table of well-formed, distinct keys
 * (`Translate`); the application's own table is `Entries`, and
 * `ReadableClassName` is the translation over it.
 */
module ClassNames {
  import opened Wrappers
  import opened Text

  /** The marker every technical label starts with. */
  const Prefix: string := "class_"

  /** The application's translation table, in declaration order
      (Kotlin's `mapOf` keeps that order when iterated). */
  const Entries: seq<(string, string)> := [
    ("class_hola", "Hola"),
    ("class_comoestas", "¿Cómo estás?"),
    ("class_comida", "Comida"),
    ("class_quehaces", "¿Qué haces?"),
    ("class_bien", "Bien"),
    ("class_adios", "Adiós"),
    ("class_muchasgracias", "Muchas gracias"),
    ("class_perdon", "Perdón"),
    ("class_porfavor", "Por favor"),
    ("class_si", "Sí"),
    ("class_no", "No"),
    ("class_ayuda", "Ayuda"),
    ("class_qhorason", "¿Qué hora es?")
  ]

  /** The marker followed by lower-case text has no upper-case letter. */
  lemma PrefixNoUpper(t: string)
    requires NoUpper(t)
    ensures NoUpper(Prefix + t)
  {
    forall j | 0 <= j < |Prefix + t| ensures !IsAsciiUpper((Prefix + t)[j]) {
      if j >= |Prefix| { assert (Prefix + t)[j] == t[j - |Prefix|]; }
    }
  }

  /** A technical label: the marker followed by one or more ASCII lower-case letters. */
  predicate WellFormedKey(k: string) {
    |k| > |Prefix| && k[..|Prefix|] == Prefix &&
    forall j :: |Prefix| <= j < |k| ==> IsAsciiLower(k[j])
  }

  /** A key without its marker: `hola` for `class_hola`. */
  function Stem(k: string): (s: string)
    requires WellFormedKey(k)
    ensures |s| + |Prefix| == |k| && |s| >= 1
  {
    k[|Prefix|..]
  }

  /** Every key is well formed and no key occurs twice. */
  predicate WellFormedTable(table: seq<(string, string)>) {
    (forall i :: 0 <= i < |table| ==> WellFormedKey(table[i].0)) &&
    (forall i, j :: 0 <= i < j < |table| ==> table[i].0 != table[j].0)
  }

  /** Every key of the application's table is a well-formed technical label. */
  lemma EntryKeysWellFormed()
    ensures forall i :: 0 <= i < |Entries| ==> WellFormedKey(Entries[i].0)
  {
  }

  /** No key of the application's table occurs twice. */
  lemma EntryKeysDistinct()
    ensures forall i, j :: 0 <= i < j < |Entries| ==> Entries[i].0 != Entries[j].0
  {
  }

  /** The application's table is well formed. */
  lemma EntriesWellFormed()
    ensures WellFormedTable(Entries)
  {
    EntryKeysWellFormed();
    EntryKeysDistinct();
  }

  // ---------------------------------------------------------------------
  // The algorithm

  /** `mapOf(pairs)`: the pairs are put in order, so a later pair with the
      same key would overwrite an earlier one. This is `classNameMap`,
      used for the exact lookup. */
  function TableMap(table: seq<(string, string)>): (m: map<string, string>)
    ensures forall i :: 0 <= i < |table| ==> table[i].0 in m
    ensures forall k :: k in m ==> exists i :: 0 <= i < |table| && k == table[i].0
    ensures forall i :: 0 <= i < |table| && (forall j :: i < j < |table| ==> table[j].0 != table[i].0) ==>
      m[table[i].0] == table[i].1
  {
    if table == [] then map[]
    else
      var init := table[..|table| - 1];
      var last := table[|table| - 1];
      assert forall i :: 0 <= i < |table| - 1 ==> table[i] == init[i];
      TableMap(init)[last.0 := last.1]
  }

  /** `className.trim().lowercase()`. */
  function Normalize(className: string): (n: string)
    ensures NoUpper(n) && Trimmed(n)
    ensures n == [] <==> AllWhitespace(className)
  {
    LowercaseTrimmed(Trim(className));
    Lowercase(Trim(className))
  }

  /** The three conditions the normalized search tries against one key.
      Each compares with lower-cased text, so a name with an upper-case
      letter matches nothing. */
  predicate Matches(n: string, key: string): (b: bool)
    ensures b ==> NoUpper(n)
  {
    PrefixNoUpper(Lowercase(DeleteAll(key, Prefix)));
    n == Lowercase(key) ||
    n == Lowercase(DeleteAll(key, Prefix)) ||
    n == Prefix + Lowercase(DeleteAll(key, Prefix))
  }

  /** The search over the table in declaration order with early return:
      the first entry from `k` on whose key matches `n`. */
  function FindFrom(table: seq<(string, string)>, n: string, k: nat): (r: Option<nat>)
    requires k <= |table|
    ensures r.Some? ==> k <= r.value < |table| && Matches(n, table[r.value].0)
    ensures r.Some? ==> forall j :: k <= j < r.value ==> !Matches(n, table[j].0)
    ensures r.None? ==> forall j :: k <= j < |table| ==> !Matches(n, table[j].0)
    decreases |table| - k
  {
    if k == |table| then None
    else if Matches(n, table[k].0) then Some(k)
    else FindFrom(table, n, k + 1)
  }

  /** The fallback text: every marker deleted from the normalized name,
      then its first character upper-cased. */
  function Cleaned(n: string): (r: string)
    ensures |r| <= |n|
  {
    Capitalize(DeleteAll(n, Prefix))
  }

  /** `getReadableClassName` over `table`: exact lookup, then the normalized
      search, then the cleaned fallback. */
  function Translate(table: seq<(string, string)>, className: string): (r: string)
    requires WellFormedTable(table)
    ensures (exists i :: 0 <= i < |table| && r == table[i].1) || r == Cleaned(Normalize(className))
  {
    var m := TableMap(table);
    if className in m then m[className]
    else
      var n := Normalize(className);
      match FindFrom(table, n, 0)
      case Some(i) => table[i].1
      case None => Cleaned(n)
  }

  /** `getReadableClassName` itself. */
  function ReadableClassName(className: string): (r: string)
    ensures (exists i :: 0 <= i < |Entries| && r == Entries[i].1) || r == Cleaned(Normalize(className))
  {
    EntriesWellFormed();
    Translate(Entries, className)
  }

  // ---------------------------------------------------------------------
  // The shape of a well-formed table

  lemma KeysDistinct(table: seq<(string, string)>, i: nat, j: nat)
    requires WellFormedTable(table) && i < j < |table|
    ensures table[i].0 != table[j].0
  {
  }

  /** In a well-formed table every key is looked up to its own label. */
  lemma LookupKey(table: seq<(string, string)>, i: nat)
    requires WellFormedTable(table) && i < |table|
    ensures TableMap(table)[table[i].0] == table[i].1
  {
    forall j | i < j < |table| ensures table[j].0 != table[i].0 { KeysDistinct(table, i, j); }
  }

  /** A well-formed key is its own lower-case form, and deleting markers
      from it leaves its stem. */
  lemma {:induction false} KeyShape(k: string)
    requires WellFormedKey(k)
    ensures k == Prefix + Stem(k)
    ensures Lowercase(k) == k
    ensures DeleteAll(k, Prefix) == Stem(k)
    ensures Lowercase(Stem(k)) == Stem(k)
    ensures '_' !in Stem(k) && k[|Prefix| - 1] == '_'
  {
    var st := Stem(k);
    assert k == k[..|Prefix|] + st;
    assert NoUpper(st) && '_' !in st by {
      forall j | 0 <= j < |st| ensures IsAsciiLower(st[j]) { assert st[j] == k[j + |Prefix|]; }
    }
    assert NoUpper(k) by {
      forall j | 0 <= j < |k| ensures !IsAsciiUpper(k[j]) {
        if j < |Prefix| { assert k[j] == Prefix[j]; } else { assert k[j] == st[j - |Prefix|]; }
      }
    }
    LowercaseNoUpper(k);
    LowercaseNoUpper(st);
    DeleteAllLeading(Prefix, st);
    DeleteAllAbsent(st, Prefix, |Prefix| - 1);
  }

  /** A well-formed key is left unchanged by normalization. */
  lemma KeyNormalizes(k: string)
    requires WellFormedKey(k)
    ensures Normalize(k) == k
    ensures DeleteAll(k, Prefix) == Stem(k)
  {
    KeyShape(k);
    assert k[0] == 'c' && IsAsciiLower(k[|k| - 1]);
    TrimTrimmed(k);
  }

  /** Against a well-formed key the three conditions reduce to
      "the key itself or its stem". */
  lemma MatchesKeyOrStem(n: string, k: string)
    requires WellFormedKey(k)
    ensures Matches(n, k) <==> n == k || n == Stem(k)
  {
    KeyShape(k);
  }

  /** The third condition adds nothing: against a well-formed key it holds
      exactly where the first does. */
  lemma ThirdConditionRedundant(n: string, k: string)
    requires WellFormedKey(k)
    ensures n == Prefix + Lowercase(DeleteAll(k, Prefix)) <==> n == Lowercase(k)
  {
    KeyShape(k);
  }

  /** No two entries of a well-formed table match the same normalized name,
      so the iteration order of the table cannot change the result. */
  lemma MatchIsUnique(table: seq<(string, string)>, n: string, i: nat, j: nat)
    requires WellFormedTable(table) && i < j < |table|
    ensures !(Matches(n, table[i].0) && Matches(n, table[j].0))
  {
    var ki, kj := table[i].0, table[j].0;
    MatchesKeyOrStem(n, ki);
    MatchesKeyOrStem(n, kj);
    KeyShape(ki);
    KeyShape(kj);
    assert ki != kj;
  }

  /** Whichever branch fires, a name whose normalization matches entry `i`
      is translated to that entry's label. */
  lemma TranslateMatched(table: seq<(string, string)>, className: string, i: nat)
    requires WellFormedTable(table) && i < |table| && Matches(Normalize(className), table[i].0)
    ensures Translate(table, className) == table[i].1
  {
    var n := Normalize(className);
    if className in TableMap(table) {
      var j :| 0 <= j < |table| && className == table[j].0;
      LookupKey(table, j);
      KeyNormalizes(className);
      MatchesKeyOrStem(n, className);
      if i < j { MatchIsUnique(table, n, i, j); } else if j < i { MatchIsUnique(table, n, j, i); }
    } else {
      var j := FindFrom(table, n, 0).value;
      if i < j { MatchIsUnique(table, n, i, j); } else if j < i { MatchIsUnique(table, n, j, i); }
    }
  }

  /** When no entry matches, the translation is the cleaned normalized name. */
  lemma TranslateFallback(table: seq<(string, string)>, className: string)
    requires WellFormedTable(table)
    requires forall i :: 0 <= i < |table| ==> !Matches(Normalize(className), table[i].0)
    ensures Translate(table, className) == Cleaned(Normalize(className))
  {
    if className in TableMap(table) {
      var j :| 0 <= j < |table| && className == table[j].0;
      KeyNormalizes(className);
      MatchesKeyOrStem(className, className);
    }
  }

  // ---------------------------------------------------------------------
  // What getReadableClassName returns

  /** An exact key is found by the map lookup, before any normalization. */
  lemma DirectMatch(i: nat)
    requires i < |Entries|
    ensures Entries[i].0 in TableMap(Entries)
    ensures ReadableClassName(Entries[i].0) == Entries[i].1
  {
    EntriesWellFormed();
    LookupKey(Entries, i);
  }

  /** A name whose normalization matches entry `i` gets that entry's label. */
  lemma MatchedName(className: string, i: nat)
    requires i < |Entries| && Matches(Normalize(className), Entries[i].0)
    ensures ReadableClassName(className) == Entries[i].1
  {
    EntriesWellFormed();
    TranslateMatched(Entries, className, i);
  }

  /** Surrounding whitespace and upper case are ignored when the
      normalized name is a key. */
  lemma NormalizedKeyMatch(className: string, i: nat)
    requires i < |Entries| && Normalize(className) == Entries[i].0
    ensures ReadableClassName(className) == Entries[i].1
  {
    EntriesWellFormed();
    MatchesKeyOrStem(Normalize(className), Entries[i].0);
    TranslateMatched(Entries, className, i);
  }

  /** A normalized name equal to a key without its marker is translated too. */
  lemma NormalizedStemMatch(className: string, i: nat)
    requires i < |Entries| && WellFormedKey(Entries[i].0)
    requires Normalize(className) == Stem(Entries[i].0)
    ensures ReadableClassName(className) == Entries[i].1
  {
    EntriesWellFormed();
    MatchesKeyOrStem(Normalize(className), Entries[i].0);
    TranslateMatched(Entries, className, i);
  }

  /** When no entry matches, the result is the cleaned normalized name. */
  lemma Fallback(className: string)
    requires forall i :: 0 <= i < |Entries| ==> !Matches(Normalize(className), Entries[i].0)
    ensures ReadableClassName(className) == Cleaned(Normalize(className))
  {
    EntriesWellFormed();
    TranslateFallback(Entries, className);
  }

  /** Cleaning a name without upper-case letters gives a text whose first
      character is not a lower-case letter and whose other characters are
      not upper-case letters. */
  lemma CleanedCase(n: string)
    requires NoUpper(n)
    ensures var r := Cleaned(n);
      (r == [] || !IsAsciiLower(r[0])) && forall j :: 1 <= j < |r| ==> !IsAsciiUpper(r[j])
  {
    var d := DeleteAll(n, Prefix);
    var r := Capitalize(d);
    DeleteAllKeepsCharacters(n, Prefix);
    forall j | 1 <= j < |r| ensures !IsAsciiUpper(r[j]) {
      assert r[j] == d[j];
      var c := d[j];
      assert c in n;
    }
  }

  /** In the fallback the first character is not a lower-case letter and
      no later character is an upper-case one, since the whole name was
      lower-cased before cleaning. */
  lemma FallbackCase(className: string)
    requires forall i :: 0 <= i < |Entries| ==> !Matches(Normalize(className), Entries[i].0)
    ensures var r := ReadableClassName(className);
      (r == [] || !IsAsciiLower(r[0])) && forall j :: 1 <= j < |r| ==> !IsAsciiUpper(r[j])
  {
    Fallback(className);
    CleanedCase(Normalize(className));
  }

  /** An empty or all-whitespace name yields the empty text. */
  lemma BlankName(className: string)
    requires AllWhitespace(className)
    ensures ReadableClassName(className) == ""
  {
    EntriesWellFormed();
    var n := Normalize(className);
    forall i | 0 <= i < |Entries| ensures !Matches(n, Entries[i].0) {
      MatchesKeyOrStem(n, Entries[i].0);
    }
    Fallback(className);
  }

  /** An underscore anywhere but at the end of the marker rules out every entry. */
  lemma NoEntryMatches(n: string, j: nat)
    requires j < |n| && n[j] == '_' && j != |Prefix| - 1
    ensures forall i :: 0 <= i < |Entries| ==> !Matches(n, Entries[i].0)
  {
    EntriesWellFormed();
    forall i | 0 <= i < |Entries| ensures !Matches(n, Entries[i].0) {
      var k := Entries[i].0;
      MatchesKeyOrStem(n, k);
      KeyShape(k);
      if j < |k| {
        if j < |Prefix| { assert k[j] == Prefix[j]; } else { assert IsAsciiLower(k[j]); }
      }
    }
  }

  // ---------------------------------------------------------------------
  // Examples

  lemma LowerShouted(t: string)
    requires t == "CLASS_HOLA"
    ensures Lowercase(t) == Entries[0].0
  {
  }

  lemma ShoutedKeyNormalized(s: string, w1: string, t: string, w2: string)
    requires w1 == "  " && t == "CLASS_HOLA" && w2 == " " && s == w1 + t + w2
    ensures Normalize(s) == Entries[0].0
  {
    TrimSurrounding(w1, t, w2);
    LowerShouted(t);
  }

  /** Surrounding whitespace and upper case are ignored: `"  CLASS_HOLA "` is `Hola`. */
  lemma ShoutedKeyExample(s: string)
    requires s == "  CLASS_HOLA "
    ensures ReadableClassName(s) == "Hola"
  {
    ShoutedKeyNormalized(s, "  ", "CLASS_HOLA", " ");
    NormalizedKeyMatch(s, 0);
  }

  lemma LowerStem(t: string)
    requires t == "hola" || t == "Hola"
    ensures Lowercase(t) == "hola"
  {
  }

  lemma StemNormalized(s: string, w: string, t: string)
    requires (w == [] && t == "hola") || (w == " " && t == "Hola")
    requires s == w + t
    ensures Normalize(s) == "hola"
  {
    TrimSurrounding(w, t, []);
    assert s + [] == s;
    LowerStem(t);
  }

  lemma HolaStem()
    ensures WellFormedKey(Entries[0].0) && Stem(Entries[0].0) == "hola"
  {
    EntryKeysWellFormed();
  }

  /** The key without its marker is recognised: `"hola"` and `" Hola"` are `Hola`. */
  lemma StemExample(s: string)
    requires s == "hola" || s == " Hola"
    ensures ReadableClassName(s) == "Hola"
  {
    if s == "hola" {
      StemNormalized(s, [], "hola");
    } else {
      StemNormalized(s, " ", "Hola");
    }
    HolaStem();
    NormalizedStemMatch(s, 0);
  }

  lemma LowerUnknown(t: string)
    requires t == "FOO_BAR"
    ensures Lowercase(t) == "foo_bar"
  {
  }

  lemma CleanUnknown(n: string)
    requires n == "foo_bar"
    ensures Cleaned(n) == "Foo_bar"
  {
    DeleteAllAbsent(n, Prefix, 0);
  }

  /** Contrary to the doc comment of `getReadableClassName`, an unknown name
      is not returned as it was: `"FOO_BAR"` comes back as `"Foo_bar"`. */
  lemma UnknownNameIsNotReturnedAsIs(s: string)
    requires s == "FOO_BAR"
    ensures ReadableClassName(s) == "Foo_bar" != s
  {
    assert Trimmed(s) by { assert s[0] == 'F' && s[|s| - 1] == 'R'; }
    TrimTrimmed(s);
    LowerUnknown(Trim(s));
    NoEntryMatches(Normalize(s), 3);
    Fallback(s);
    CleanUnknown(Normalize(s));
  }

  /** One step of the deletion scan: a character that starts no marker is kept. */
  lemma KeepStep(c: char, t: string, r: string)
    requires c != 'c' && DeleteAll(t, Prefix) == r
    ensures DeleteAll([c] + t, Prefix) == [c] + r
  {
    assert |[c] + t| >= |Prefix| ==> ([c] + t)[..|Prefix|][0] != Prefix[0];
    DeleteAllKeep(c, t, Prefix);
  }

  /** A name already trimmed and in lower case is its own normalization. */
  lemma SelfNormalized(s: string)
    requires Trimmed(s) && NoUpper(s)
    ensures Normalize(s) == s
  {
    TrimTrimmed(s);
    LowercaseNoUpper(s);
  }

  /** A trimmed lower-case name with a stray underscore at `j` is
      translated to its cleaned form. */
  lemma FallbackOf(s: string, j: nat, r: string)
    requires Trimmed(s) && NoUpper(s) && Cleaned(s) == r
    requires j < |s| && s[j] == '_' && j != |Prefix| - 1
    ensures ReadableClassName(s) == r
  {
    SelfNormalized(s);
    NoEntryMatches(Normalize(s), j);
    Fallback(s);
  }

  lemma TwoMarkersName(s: string)
    requires s == "class_a_class_b"
    ensures Trimmed(s) && NoUpper(s)
    ensures s == Prefix + (['a'] + (['_'] + (Prefix + "b")))
  {
  }

  lemma CleanTwoMarkers(n: string, b: string)
    requires b == "b" && n == Prefix + (['a'] + (['_'] + (Prefix + b)))
    ensures Cleaned(n) == "A_b"
  {
    DeleteAllLeading(Prefix, b);
    assert DeleteAll(b, Prefix) == b;
    KeepStep('_', Prefix + b, b);
    KeepStep('a', ['_'] + (Prefix + b), ['_'] + b);
    DeleteAllLeading(Prefix, ['a'] + (['_'] + (Prefix + b)));
  }

  /** Every marker is deleted, not only a leading one. */
  lemma EveryMarkerDeleted(s: string)
    requires s == "class_a_class_b"
    ensures ReadableClassName(s) == "A_b"
  {
    TwoMarkersName(s);
    CleanTwoMarkers(s, "b");
    FallbackOf(s, 7, "A_b");
  }

  lemma JoinedMarkerName(s: string)
    requires s == "xclaclass_ss_"
    ensures Trimmed(s) && NoUpper(s)
    ensures s == ['x'] + (['c'] + (['l'] + (['a'] + (Prefix + "ss_"))))
  {
  }

  lemma DeleteJoinedTail(u: string, t: string)
    requires t == "ss_" && u == ['l'] + (['a'] + (Prefix + t))
    ensures DeleteAll(u, Prefix) == ['l'] + (['a'] + t)
  {
    assert DeleteAll(t, Prefix) == t;
    DeleteAllLeading(Prefix, t);
    KeepStep('a', Prefix + t, t);
    KeepStep('l', ['a'] + (Prefix + t), ['a'] + t);
  }

  lemma CleanJoinedMarker(n: string, u: string, t: string)
    requires t == "ss_" && u == ['l'] + (['a'] + (Prefix + t)) && n == ['x'] + (['c'] + u)
    ensures Cleaned(n) == "Xclass_"
  {
    DeleteJoinedTail(u, t);
    assert !OccursAt(['c'] + u, Prefix, 0) by { assert (['c'] + u)[3] != Prefix[3]; }
    DeleteAllKeep('c', u, Prefix);
    KeepStep('x', ['c'] + u, ['c'] + (['l'] + (['a'] + t)));
  }

  /** Deleting in one left-to-right pass can join two pieces into a new
      marker, so the fallback text may still contain `class_`. */
  lemma MarkerCanSurvive(s: string)
    requires s == "xclaclass_ss_"
    ensures ReadableClassName(s) == "Xclass_"
  {
    JoinedMarkerName(s);
    CleanJoinedMarker(s, ['l'] + (['a'] + (Prefix + "ss_")), "ss_");
    FallbackOf(s, 9, "Xclass_");
  }
}
