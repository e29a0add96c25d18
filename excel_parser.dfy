/** Roster import and export (utils/excelParser.js): header matching
    against the table of column aliases, full-name splitting, the row loop
    that turns a sheet into participants, and the rows written back out.
    The sheet arrives as rows of optional cell strings, as the spreadsheet
    library hands them over; reading the file is not part of this model. */
module ExcelParser {
  import opened Common
  import opened Text
  import opened Roster

  /** The internal participant fields a column can feed. */
  datatype Field = Id | Nom | FullName | Prenom | Email | Company | Manager

  /** `COLUMN_MAPPINGS`, in declaration order (the order in which
      `Object.entries` visits its string keys). */
  const ColumnMappings: seq<(string, Field)> := [
    ("id", Id), ("id_client", Id), ("id d'inscription", Id), ("inscription", Id),
    ("nom", Nom), ("name", Nom), ("nom complet", FullName), ("contact", FullName),
    ("prenom", Prenom), ("prénom", Prenom), ("firstname", Prenom),
    ("email", Email), ("mail", Email), ("adresse email", Email),
    ("adresse email (contact) (relation)", Email), ("e-mail", Email),
    ("societe", Company), ("société", Company), ("company", Company), ("entreprise", Company),
    ("gerant", Manager), ("gérant", Manager), ("gérant (contact) (relation)", Manager),
    ("manager", Manager)
  ]

  // ---------------------------------------------------------------- names

  /** A full name split into surname (`nom`) and first names (`prenom`). */
  datatype NameParts = NameParts(nom: string, prenom: string)

  /** `parseFullName`: the last white-space separated word is the surname,
      the words before it, joined by single blanks, the first names. */
  function ParseFullName(fullName: string): NameParts {
    if fullName == "" then NameParts("", "")
    else
      var parts := SplitWs(Trim(fullName));
      if |parts| == 1 then NameParts(parts[0], "")
      else NameParts(parts[|parts| - 1], Join(parts[..|parts| - 1], " "))
  }

  /** The name as the app displays it: `${prenom} ${nom}`, without the
      blank when there are no first names. */
  function Displayed(n: NameParts): string {
    if n.prenom == "" then n.nom else n.prenom + " " + n.nom
  }

  /** Splitting a full name loses nothing but white space: first names and
      surname put back together are the input with its white space
      collapsed; the surname is one word, empty only for a blank input. */
  lemma ParseFullNameCollapses(s: string)
    ensures SpaceFree(ParseFullName(s).nom)
    ensures Displayed(ParseFullName(s)) == Squash(Trim(s))
    ensures Trim(s) == "" <==> ParseFullName(s) == NameParts("", "")
    ensures Trim(s) != "" && SpaceFree(Trim(s)) ==> ParseFullName(s) == NameParts(Trim(s), "")
  {
    var t := Trim(s);
    TrimIsTrimmed(s);
    JoinSplitWsIsSquash(t);
    SplitWsSpaceFree(t);
    var parts := SplitWs(t);
    var n := ParseFullName(s);
    if s == "" {
    } else if t == "" {
      assert parts == [""];
    } else {
      SplitWsOfTrimmed(t);
      assert parts[|parts| - 1] in parts;
      if |parts| >= 2 {
        JoinSnoc(parts, " ");
        assert parts[0] in parts;
        assert parts[..|parts| - 1][0] == parts[0];
        assert n.prenom != "";
      }
    }
  }

  // ---------------------------------------------------- column matching

  /** The accent a canonical decomposition (NFD) would split off, removed
      from a lower-case Latin-1 letter. */
  function FoldChar(c: char): char {
    if '\U{00E0}' <= c <= '\U{00E5}' then 'a'
    else if c == '\U{00E7}' then 'c'
    else if '\U{00E8}' <= c <= '\U{00EB}' then 'e'
    else if '\U{00EC}' <= c <= '\U{00EF}' then 'i'
    else if c == '\U{00F1}' then 'n'
    else if '\U{00F2}' <= c <= '\U{00F6}' then 'o'
    else if '\U{00F9}' <= c <= '\U{00FC}' then 'u'
    else if c == '\U{00FD}' || c == '\U{00FF}' then 'y'
    else c
  }

  /** `.normalize('NFD').replace(/[̀-ͯ]/g, '')` on Latin-1 text. */
  function Fold(s: string): (r: string)
    ensures |r| == |s|
  {
    seq(|s|, i requires 0 <= i < |s| => FoldChar(s[i]))
  }

  /** The characters `/[^a-z0-9\s()]/g` leaves in place. */
  predicate Allowed(c: char) {
    ('a' <= c <= 'z') || ('0' <= c <= '9') || IsSpace(c) || c == '(' || c == ')'
  }

  /** `.replace(/[^a-z0-9\s()]/g, '')`. */
  function KeepAllowed(s: string): string {
    if s == [] then [] else (if Allowed(s[0]) then [s[0]] else []) + KeepAllowed(s[1..])
  }

  /** The removal leaves only allowed characters, and nothing to remove
      from a string of allowed characters. */
  lemma {:induction false} KeepAllowedShape(s: string)
    ensures forall c :: c in KeepAllowed(s) ==> Allowed(c)
    ensures (forall c :: c in s ==> Allowed(c)) ==> KeepAllowed(s) == s
  {
    if s != [] {
      KeepAllowedShape(s[1..]);
      assert s == [s[0]] + s[1..];
    }
  }

  /** `normalizeColumnName`: lower-case, strip accents, drop every
      character outside `a-z`, `0-9`, white space and parentheses, trim. */
  function NormalizeColumnName(name: string): string {
    Trim(KeepAllowed(Fold(Lower(name))))
  }

  /** A normalised name holds only allowed characters, is trimmed, and is
      its own normalisation. */
  lemma NormalizeColumnNameShape(name: string)
    ensures forall c :: c in NormalizeColumnName(name) ==> Allowed(c)
    ensures IsTrimmed(NormalizeColumnName(name))
    ensures NormalizeColumnName(NormalizeColumnName(name)) == NormalizeColumnName(name)
  {
    var r := NormalizeColumnName(name);
    KeepAllowedShape(Fold(Lower(name)));
    TrimIsTrimmed(KeepAllowed(Fold(Lower(name))));
    NormalizeCanonical(r);
  }

  /** A name already made of allowed characters and trimmed normalises to
      itself. */
  lemma NormalizeCanonical(r: string)
    requires forall c :: c in r ==> Allowed(c)
    requires IsTrimmed(r)
    ensures NormalizeColumnName(r) == r
  {
    assert Lower(r) == r by {
      forall i | 0 <= i < |r| ensures Lower(r)[i] == r[i] {
        assert Allowed(r[i]);
      }
    }
    assert Fold(r) == r by {
      forall i | 0 <= i < |r| ensures Fold(r)[i] == r[i] {
        assert Allowed(r[i]);
      }
    }
    KeepAllowedShape(r);
    TrimOfTrimmed(r);
  }

  /** Every character of `s` survives the removal of disallowed characters. */
  predicate AllAllowed(s: string) {
    forall i :: 0 <= i < |s| ==> Allowed(s[i])
  }

  /** The removal works character by character. */
  lemma {:induction false} KeepAllowedAppend(a: string, b: string)
    ensures KeepAllowed(a + b) == KeepAllowed(a) + KeepAllowed(b)
  {
    if a == [] {
      assert a + b == b;
    } else {
      var head := if Allowed(a[0]) then [a[0]] else [];
      assert (a + b)[0] == a[0];
      assert (a + b)[1..] == a[1..] + b;
      calc {
        KeepAllowed(a + b);
        head + KeepAllowed(a[1..] + b);
        { KeepAllowedAppend(a[1..], b); }
        head + (KeepAllowed(a[1..]) + KeepAllowed(b));
        (head + KeepAllowed(a[1..])) + KeepAllowed(b);
        KeepAllowed(a) + KeepAllowed(b);
      }
    }
  }

  /** Lower-casing and accent stripping leave allowed characters alone. */
  lemma FoldLowerAllowed(s: string)
    requires AllAllowed(s)
    ensures Fold(Lower(s)) == s
  {
    assert Lower(s) == s;
    assert Fold(s) == s;
  }

  /** Nothing is removed from a string of allowed characters. */
  lemma KeepAllowedAll(s: string)
    requires AllAllowed(s)
    ensures KeepAllowed(s) == s
  {
    KeepAllowedShape(s);
  }

  /** Lower-casing and accent stripping work character by character. */
  lemma FoldLowerAppend(a: string, b: string)
    ensures Fold(Lower(a + b)) == Fold(Lower(a)) + Fold(Lower(b))
  {
  }

  /** A name whose characters, lower-cased and stripped of accents, give the
      trimmed allowed string `t` normalises to `t`. */
  lemma NormalizeTo(s: string, t: string)
    requires |s| == |t|
    requires forall i :: 0 <= i < |s| ==> FoldChar(LowerChar(s[i])) == t[i]
    requires AllAllowed(t) && IsTrimmed(t)
    ensures NormalizeColumnName(s) == t
  {
    assert Fold(Lower(s)) == t;
    KeepAllowedShape(t);
    TrimOfTrimmed(t);
  }

  /** Lower-casing and accent stripping touch only the one character
      between two allowed strings. */
  lemma FoldLowerAround(a: string, c: char, b: string)
    requires AllAllowed(a) && AllAllowed(b)
    ensures Fold(Lower(a + [c] + b)) == a + [FoldChar(LowerChar(c))] + b
  {
    FoldLowerAppend(a + [c], b);
    FoldLowerAppend(a, [c]);
    FoldLowerAllowed(a);
    FoldLowerAllowed(b);
  }

  /** The removal drops a disallowed character between two allowed strings
      and keeps the rest. */
  lemma KeepAllowedAround(a: string, d: char, b: string)
    requires AllAllowed(a) && AllAllowed(b) && !Allowed(d)
    ensures KeepAllowed(a + [d] + b) == a + b
  {
    assert KeepAllowed([d]) == [] by {
      assert [d][1..] == [];
    }
    calc {
      KeepAllowed(a + [d] + b);
      { KeepAllowedAppend(a + [d], b); }
      KeepAllowed(a + [d]) + KeepAllowed(b);
      { KeepAllowedAppend(a, [d]); }
      KeepAllowed(a) + [] + KeepAllowed(b);
      { KeepAllowedAll(a); KeepAllowedAll(b); }
      a + [] + b;
    }
    assert a + [] + b == a + b;
  }

  /** A trimmed name of allowed characters normalises to itself. */
  lemma NormalizeAllowed(s: string)
    requires AllAllowed(s) && IsTrimmed(s)
    ensures NormalizeColumnName(s) == s
  {
    FoldLowerAllowed(s);
    KeepAllowedAll(s);
    TrimOfTrimmed(s);
  }

  /** A name of allowed characters but for one letter at `k`, which
      lower-casing and accent stripping turn into the allowed `d`,
      normalises to the name with `d` in place, when that is trimmed. */
  lemma NormalizeReplacing(s: string, k: nat, d: char)
    requires k < |s|
    requires forall j :: 0 <= j < |s| && j != k ==> Allowed(s[j])
    requires FoldChar(LowerChar(s[k])) == d && Allowed(d)
    requires IsTrimmed(s[k := d])
    ensures NormalizeColumnName(s) == s[k := d]
  {
    var t := s[k := d];
    assert Fold(Lower(s)) == t by {
      forall j | 0 <= j < |s| ensures Fold(Lower(s))[j] == t[j] {
        if j != k {
          assert Allowed(s[j]);
        }
      }
    }
    assert AllAllowed(t);
    KeepAllowedAll(t);
    TrimOfTrimmed(t);
  }

  /** A name that is a trimmed allowed string `a + b` with one character `c`
      the removal drops inserted between the two parts normalises to `a + b`. */
  lemma NormalizeDropping(name: string, a: string, c: char, b: string)
    requires name == a + [c] + b
    requires AllAllowed(a) && AllAllowed(b)
    requires !Allowed(FoldChar(LowerChar(c)))
    requires IsTrimmed(a + b)
    ensures NormalizeColumnName(name) == a + b
  {
    var d := FoldChar(LowerChar(c));
    FoldLowerAround(a, c, b);
    KeepAllowedAround(a, d, b);
    TrimOfTrimmed(a + b);
  }


  /** `NormalizeDropping` with the dropped character given by position. */
  lemma NormalizeDroppingAt(name: string, k: nat)
    requires k < |name|
    requires forall j :: 0 <= j < |name| && j != k ==> Allowed(name[j])
    requires !Allowed(FoldChar(LowerChar(name[k])))
    requires IsTrimmed(name[..k] + name[k + 1..])
    ensures NormalizeColumnName(name) == name[..k] + name[k + 1..]
  {
    var a, b := name[..k], name[k + 1..];
    assert name == a + [name[k]] + b;
    assert AllAllowed(a) by {
      forall j | 0 <= j < |a| ensures Allowed(a[j]) {
        assert a[j] == name[j];
      }
    }
    assert AllAllowed(b) by {
      forall j | 0 <= j < |b| ensures Allowed(b[j]) {
        assert b[j] == name[k + 1 + j];
      }
    }
    NormalizeDropping(name, a, name[k], b);
  }

  /** The table keys as `normalizeColumnName` leaves them, in table order. */
  const NormalizedKeys: seq<string> := [
    "id", "idclient", "id dinscription", "inscription", "nom", "name", "nom complet", "contact", "prenom", "prenom", "firstname", "email", "mail", "adresse email", "adresse email (contact) (relation)", "email", "societe", "societe", "company", "entreprise", "gerant", "gerant", "gerant (contact) (relation)", "manager"
  ]


  /** Each table key normalises to its entry of `NormalizedKeys`. */
  lemma NormalizedKey(i: nat)
    requires i < |ColumnMappings|
    ensures NormalizeColumnName(ColumnMappings[i].0) == NormalizedKeys[i]
  {
    if i == 0 {
      NormalizedKeyAt0(i);
    } else if i == 1 {
      NormalizedKeyAt1(i);
    } else if i == 2 {
      NormalizedKeyAt2(i);
    } else if i == 3 {
      NormalizedKeyAt3(i);
    } else if i == 4 {
      NormalizedKeyAt4(i);
    } else if i == 5 {
      NormalizedKeyAt5(i);
    } else if i == 6 {
      NormalizedKeyAt6(i);
    } else if i == 7 {
      NormalizedKeyAt7(i);
    } else if i == 8 {
      NormalizedKeyAt8(i);
    } else if i == 9 {
      NormalizedKeyAt9(i);
    } else if i == 10 {
      NormalizedKeyAt10(i);
    } else if i == 11 {
      NormalizedKeyAt11(i);
    } else if i == 12 {
      NormalizedKeyAt12(i);
    } else if i == 13 {
      NormalizedKeyAt13(i);
    } else if i == 14 {
      NormalizedKeyAt14(i);
    } else if i == 15 {
      NormalizedKeyAt15(i);
    } else if i == 16 {
      NormalizedKeyAt16(i);
    } else if i == 17 {
      NormalizedKeyAt17(i);
    } else if i == 18 {
      NormalizedKeyAt18(i);
    } else if i == 19 {
      NormalizedKeyAt19(i);
    } else if i == 20 {
      NormalizedKeyAt20(i);
    } else if i == 21 {
      NormalizedKeyAt21(i);
    } else if i == 22 {
      NormalizedKeyAt22(i);
    } else {
      NormalizedKeyAt23(i);
    }
  }

  // The proof of `NormalizedKey` is split into one lemma per table entry
  // so that each of them evaluates the normalisation of a single string
  // literal; taken together in one proof, the 24 evaluations exceed what
  // the solver handles comfortably.
  lemma NormalizedKeyAt0(i: nat) requires i == 0 ensures NormalizeColumnName(ColumnMappings[i].0) == NormalizedKeys[i] {
    NormalizeTo(ColumnMappings[i].0, "id");
  }
  lemma NormalizedKeyAt1(i: nat) requires i == 1 ensures NormalizeColumnName(ColumnMappings[i].0) == NormalizedKeys[i] {
    DroppingKey1(ColumnMappings[i].0);
  }
  lemma NormalizedKeyAt2(i: nat) requires i == 2 ensures NormalizeColumnName(ColumnMappings[i].0) == NormalizedKeys[i] {
    DroppingKey2(ColumnMappings[i].0);
  }
  lemma NormalizedKeyAt3(i: nat) requires i == 3 ensures NormalizeColumnName(ColumnMappings[i].0) == NormalizedKeys[i] {
    NormalizeTo(ColumnMappings[i].0, "inscription");
  }
  lemma NormalizedKeyAt4(i: nat) requires i == 4 ensures NormalizeColumnName(ColumnMappings[i].0) == NormalizedKeys[i] {
    NormalizeTo(ColumnMappings[i].0, "nom");
  }
  lemma NormalizedKeyAt5(i: nat) requires i == 5 ensures NormalizeColumnName(ColumnMappings[i].0) == NormalizedKeys[i] {
    NormalizeTo(ColumnMappings[i].0, "name");
  }
  lemma NormalizedKeyAt6(i: nat) requires i == 6 ensures NormalizeColumnName(ColumnMappings[i].0) == NormalizedKeys[i] {
    NormalizeTo(ColumnMappings[i].0, "nom complet");
  }
  lemma NormalizedKeyAt7(i: nat) requires i == 7 ensures NormalizeColumnName(ColumnMappings[i].0) == NormalizedKeys[i] {
    NormalizeTo(ColumnMappings[i].0, "contact");
  }
  lemma NormalizedKeyAt8(i: nat) requires i == 8 ensures NormalizeColumnName(ColumnMappings[i].0) == NormalizedKeys[i] {
    NormalizeTo(ColumnMappings[i].0, "prenom");
  }
  lemma NormalizedKeyAt9(i: nat) requires i == 9 ensures NormalizeColumnName(ColumnMappings[i].0) == NormalizedKeys[i] {
    NormalizeTo(ColumnMappings[i].0, "prenom");
  }
  lemma NormalizedKeyAt10(i: nat) requires i == 10 ensures NormalizeColumnName(ColumnMappings[i].0) == NormalizedKeys[i] {
    NormalizeTo(ColumnMappings[i].0, "firstname");
  }
  lemma NormalizedKeyAt11(i: nat) requires i == 11 ensures NormalizeColumnName(ColumnMappings[i].0) == NormalizedKeys[i] {
    NormalizeTo(ColumnMappings[i].0, "email");
  }
  lemma NormalizedKeyAt12(i: nat) requires i == 12 ensures NormalizeColumnName(ColumnMappings[i].0) == NormalizedKeys[i] {
    NormalizeTo(ColumnMappings[i].0, "mail");
  }
  lemma NormalizedKeyAt13(i: nat) requires i == 13 ensures NormalizeColumnName(ColumnMappings[i].0) == NormalizedKeys[i] {
    NormalizeTo(ColumnMappings[i].0, "adresse email");
  }
  lemma NormalizedKeyAt14(i: nat) requires i == 14 ensures NormalizeColumnName(ColumnMappings[i].0) == NormalizedKeys[i] {
    NormalizeAllowed(ColumnMappings[i].0);
  }
  lemma NormalizedKeyAt15(i: nat) requires i == 15 ensures NormalizeColumnName(ColumnMappings[i].0) == NormalizedKeys[i] {
    DroppingKey15(ColumnMappings[i].0);
  }
  lemma NormalizedKeyAt16(i: nat) requires i == 16 ensures NormalizeColumnName(ColumnMappings[i].0) == NormalizedKeys[i] {
    NormalizeTo(ColumnMappings[i].0, "societe");
  }
  lemma NormalizedKeyAt17(i: nat) requires i == 17 ensures NormalizeColumnName(ColumnMappings[i].0) == NormalizedKeys[i] {
    NormalizeTo(ColumnMappings[i].0, "societe");
  }
  lemma NormalizedKeyAt18(i: nat) requires i == 18 ensures NormalizeColumnName(ColumnMappings[i].0) == NormalizedKeys[i] {
    NormalizeTo(ColumnMappings[i].0, "company");
  }
  lemma NormalizedKeyAt19(i: nat) requires i == 19 ensures NormalizeColumnName(ColumnMappings[i].0) == NormalizedKeys[i] {
    NormalizeTo(ColumnMappings[i].0, "entreprise");
  }
  lemma NormalizedKeyAt20(i: nat) requires i == 20 ensures NormalizeColumnName(ColumnMappings[i].0) == NormalizedKeys[i] {
    NormalizeTo(ColumnMappings[i].0, "gerant");
  }
  lemma NormalizedKeyAt21(i: nat) requires i == 21 ensures NormalizeColumnName(ColumnMappings[i].0) == NormalizedKeys[i] {
    NormalizeTo(ColumnMappings[i].0, "gerant");
  }
  lemma NormalizedKeyAt22(i: nat) requires i == 22 ensures NormalizeColumnName(ColumnMappings[i].0) == NormalizedKeys[i] {
    Key22Parts(i);
    NormalizeReplacing(ColumnMappings[i].0, 1, 'e');
  }
  lemma Key22Parts(i: nat) requires i == 22
    ensures forall j :: 0 <= j < |ColumnMappings[i].0| && j != 1 ==> Allowed(ColumnMappings[i].0[j])
    ensures FoldChar(LowerChar(ColumnMappings[i].0[1])) == 'e'
    ensures ColumnMappings[i].0[1 := 'e'] == NormalizedKeys[i]
  {
    Key22Replaced(i);
  }
  lemma Key22Replaced(i: nat) requires i == 22
    ensures 1 < |ColumnMappings[i].0| && ColumnMappings[i].0[1 := 'e'] == NormalizedKeys[i]
    ensures IsTrimmed(NormalizedKeys[i])
  {
  }
  lemma NormalizedKeyAt23(i: nat) requires i == 23 ensures NormalizeColumnName(ColumnMappings[i].0) == NormalizedKeys[i] {
    NormalizeTo(ColumnMappings[i].0, "manager");
  }

  lemma DroppingKey1(k: string) requires k == "id_client" ensures NormalizeColumnName(k) == "idclient" {
    NormalizeDropping(k, "id", '_', "client");
  }

  lemma DroppingKey2(k: string) requires k == "id d'inscription" ensures NormalizeColumnName(k) == "id dinscription" {
    DroppingKey2Parts(k);
    NormalizeDroppingAt(k, 4);
  }
  lemma DroppingKey2Parts(k: string) requires k == "id d'inscription"
    ensures 4 < |k| && forall j :: 0 <= j < |k| && j != 4 ==> Allowed(k[j])
    ensures !Allowed(FoldChar(LowerChar(k[4])))
    ensures k[..4] + k[5..] == "id dinscription" && IsTrimmed("id dinscription")
  {
  }

  lemma DroppingKey15(k: string) requires k == "e-mail" ensures NormalizeColumnName(k) == "email" {
    assert k[..1] + k[2..] == "email";
    NormalizeDroppingAt(k, 1);
  }

  /** Header `normalized` matches table key `key`: equal, or one contains
      the other once both are normalised. */
  predicate KeyMatches(normalized: string, key: string) {
    var nk := NormalizeColumnName(key);
    normalized == nk || Contains(normalized, nk) || Contains(nk, normalized)
  }

  /** The loop of `findFieldMapping`, from entry `k` on: the position of
      the first entry of `table` whose key matches, or None. */
  function FirstMatch(normalized: string, table: seq<(string, Field)>, k: nat): (r: Option<nat>)
    requires k <= |table|
    ensures r.Some? ==> k <= r.value < |table| && KeyMatches(normalized, table[r.value].0)
    ensures r.Some? ==> forall j :: k <= j < r.value ==> !KeyMatches(normalized, table[j].0)
    ensures r.None? ==> forall j :: k <= j < |table| ==> !KeyMatches(normalized, table[j].0)
    decreases |table| - k
  {
    if k == |table| then None
    else if KeyMatches(normalized, table[k].0) then Some(k)
    else FirstMatch(normalized, table, k + 1)
  }

  /** `findFieldMapping`: the field of the first matching table entry, or
      null. */
  function FindFieldMapping(columnName: string): Option<Field> {
    match FirstMatch(NormalizeColumnName(columnName), ColumnMappings, 0)
    case None => None
    case Some(i) => Some(ColumnMappings[i].1)
  }

  /** Matching is first-match: the result is the field of the earliest
      table entry that matches. */
  lemma FindFieldMappingFirstMatch(columnName: string, i: nat)
    requires i < |ColumnMappings|
    requires KeyMatches(NormalizeColumnName(columnName), ColumnMappings[i].0)
    requires forall j :: 0 <= j < i ==> !KeyMatches(NormalizeColumnName(columnName), ColumnMappings[j].0)
    ensures FindFieldMapping(columnName) == Some(ColumnMappings[i].1)
  {
    var r := FirstMatch(NormalizeColumnName(columnName), ColumnMappings, 0);
    assert r.Some?;
    assert r.value == i;
  }

  /** The result is null exactly when no table entry matches. */
  lemma FindFieldMappingNull(columnName: string)
    ensures FindFieldMapping(columnName).None? <==>
              forall j :: 0 <= j < |ColumnMappings| ==> !KeyMatches(NormalizeColumnName(columnName), ColumnMappings[j].0)
  {
    var h := NormalizeColumnName(columnName);
    if FindFieldMapping(columnName).Some? {
      var r := FirstMatch(h, ColumnMappings, 0);
      assert KeyMatches(h, ColumnMappings[r.value].0);
    }
  }

  /** A header that normalises to the empty string maps to `id`, because
      the first key, "id", contains the empty string. */
  lemma EmptyHeaderMapsToId(columnName: string)
    requires NormalizeColumnName(columnName) == ""
    ensures FindFieldMapping(columnName) == Some(Id)
  {
    ContainsEmpty(NormalizeColumnName("id"));
    FindFieldMappingFirstMatch(columnName, 0);
  }

  // ------------------------------------------ consequences of first match

  /** A needle holding a character the haystack lacks is not contained. */
  lemma NotContainedByChar(hay: string, needle: string, c: char)
    requires c in needle && c !in hay
    ensures !Contains(hay, needle)
  {
    if Contains(hay, needle) {
      ContainsBounds(hay, needle);
    }
  }

  /** A header in which key `i` occurs (normalised) matches that key. */
  lemma MatchesKeyAt(h: string, i: nat, pos: nat)
    requires i < |ColumnMappings| && OccursAt(h, NormalizedKeys[i], pos)
    ensures KeyMatches(h, ColumnMappings[i].0)
  {
    NormalizedKey(i);
    OccursContains(h, NormalizedKeys[i], pos);
  }

  /** A header and a key each holding a character the other lacks do not
      match. */
  lemma NoMatchByChars(h: string, key: string, c: char, d: char)
    requires c in NormalizeColumnName(key) && c !in h
    requires d in h && d !in NormalizeColumnName(key)
    ensures !KeyMatches(h, key)
  {
    NotContainedByChar(h, NormalizeColumnName(key), c);
    NotContainedByChar(NormalizeColumnName(key), h, d);
  }

  /** A header holding `d` but no `c` matches none of the keys `lo` to
      `hi - 1` when each of them holds `c` but no `d`. */
  lemma MissesKeys(h: string, lo: nat, hi: nat, c: char, d: char)
    requires lo <= hi <= |ColumnMappings|
    requires c !in h && d in h
    requires forall j :: lo <= j < hi ==> c in NormalizedKeys[j] && d !in NormalizedKeys[j]
    ensures forall j :: lo <= j < hi ==> !KeyMatches(h, ColumnMappings[j].0)
  {
    forall j | lo <= j < hi ensures !KeyMatches(h, ColumnMappings[j].0) {
      NormalizedKey(j);
      NoMatchByChars(h, ColumnMappings[j].0, c, d);
    }
  }

  /** A header that normalises to "prenom" (first names) is read as the
      surname: it contains the earlier key "nom". */
  lemma PrenomMapsToNom(header: string)
    requires NormalizeColumnName(header) == "prenom"
    ensures FindFieldMapping(header) == Some(Nom)
  {
    var h := NormalizeColumnName(header);
    IdKeysHaveNoM();
    MissesKeys(h, 0, 4, 'i', 'm');
    MatchesKeyAt(h, 4, 3);
    FindFieldMappingFirstMatch(header, 4);
  }

  /** A header that normalises to "nom complet" (full name) is read as the
      surname, not split: it contains the earlier key "nom". */
  lemma NomCompletMapsToNom(header: string)
    requires NormalizeColumnName(header) == "nom complet"
    ensures FindFieldMapping(header) == Some(Nom)
  {
    var h := NormalizeColumnName(header);
    IdKeysHaveNoM();
    MissesKeys(h, 0, 4, 'i', 'm');
    MatchesKeyAt(h, 4, 0);
    FindFieldMappingFirstMatch(header, 4);
  }

  /** A header that normalises to "firstname" is read as the surname: it
      contains the earlier key "name". */
  lemma FirstnameMapsToNom(header: string)
    requires NormalizeColumnName(header) == "firstname"
    ensures FindFieldMapping(header) == Some(Nom)
  {
    var h := NormalizeColumnName(header);
    FirstnameMissesFirstFive(h);
    MatchesKeyAt(h, 5, 5);
    FindFieldMappingFirstMatch(header, 5);
  }

  /** "firstname" matches none of the four `id` keys nor "nom". */
  lemma FirstnameMissesFirstFive(h: string)
    requires h == "firstname"
    ensures forall j :: 0 <= j < 5 ==> !KeyMatches(h, ColumnMappings[j].0)
  {
    FirstFiveKeysHaveNoF();
    MissesKeys(h, 0, 3, 'd', 'f');
    MissesKeys(h, 3, 5, 'o', 'f');
  }

  /** The four `id` keys hold an `i` and no `m`. */
  lemma IdKeysHaveNoM()
    ensures forall j :: 0 <= j < 4 ==> 'i' in NormalizedKeys[j] && 'm' !in NormalizedKeys[j]
  {
  }

  /** The first three keys hold a `d`, the next two an `o`, and none of
      the five an `f`. */
  lemma FirstFiveKeysHaveNoF()
    ensures forall j :: 0 <= j < 3 ==> 'd' in NormalizedKeys[j] && 'f' !in NormalizedKeys[j]
    ensures forall j :: 3 <= j < 5 ==> 'o' in NormalizedKeys[j] && 'f' !in NormalizedKeys[j]
  {
  }

  /** The "Prénom" column of a typical sheet feeds the surname. */
  lemma PrenomHeaderMapsToNom(header: string)
    requires header == "Prénom"
    ensures FindFieldMapping(header) == Some(Nom)
  {
    NormalizeTo(header, "prenom");
    PrenomMapsToNom(header);
  }

  /** Four aliases of the table can never yield their own field: "nom
      complet", "prenom", "prénom" and "firstname" are all read as `nom`. */
  lemma ShadowedAliases(i: nat)
    requires i in {6, 8, 9, 10}
    ensures FindFieldMapping(ColumnMappings[i].0) == Some(Nom)
    ensures ColumnMappings[i].1 != Nom
  {
    NormalizedKey(i);
    if i == 6 {
      NomCompletMapsToNom(ColumnMappings[i].0);
    } else if i == 10 {
      FirstnameMapsToNom(ColumnMappings[i].0);
    } else {
      PrenomMapsToNom(ColumnMappings[i].0);
    }
  }

  // ---------------------------------------------------------------- import

  /** A sheet cell as `sheet_to_json(..., { header: 1 })` hands it over:
      a hole of the sparse row, an explicit `undefined` or `null`, or a
      value, given by its `String(...)` text and by whether JavaScript
      holds it falsy (`""`, 0, NaN, false). A missing row is the empty
      row. */
  datatype Cell = Hole | Null | Value(text: string, falsy: bool)

  /** `String(h || '')` for one header cell: a hole stays a hole (None),
      since `map` skips it; `undefined`, `null` and every falsy value
      become ""; any other value becomes its text. */
  function HeaderText(h: Cell): Option<string> {
    match h
    case Hole => None
    case Null => Some("")
    case Value(text, falsy) => Some(if falsy then "" else text)
  }

  /** `headers`: the header row through `String(h || '')`. */
  function Headers(row: seq<Cell>): (hs: seq<Option<string>>)
    ensures |hs| == |row|
    ensures forall k :: 0 <= k < |row| ==> (hs[k].None? <==> row[k].Hole?)
  {
    seq(|row|, k requires 0 <= k < |row| => HeaderText(row[k]))
  }

  /** The field a header feeds: none for a hole, which `headers.map`
      skips, otherwise the field `findFieldMapping` gives its text. */
  function HeaderField(h: Option<string>): Option<Field> {
    if h.None? then None else FindFieldMapping(h.value)
  }

  /** `fieldMap`: one entry per header. */
  function FieldMap(headers: seq<Option<string>>): (fm: seq<Option<Field>>)
    ensures |fm| == |headers|
  {
    seq(|headers|, k requires 0 <= k < |headers| => HeaderField(headers[k]))
  }

  /** What a header cell's column feeds: nothing for a hole; `id` for an
      explicit `undefined` or `null` or a falsy value, whose header text is
      "" and "id" contains ""; otherwise the field of its text. */
  lemma HeaderCellField(h: Cell)
    ensures h.Hole? ==> HeaderField(HeaderText(h)).None?
    ensures h.Null? || (h.Value? && h.falsy) ==> HeaderField(HeaderText(h)) == Some(Id)
    ensures h.Value? && !h.falsy ==> HeaderField(HeaderText(h)) == FindFieldMapping(h.text)
  {
    if h.Null? || (h.Value? && h.falsy) {
      EmptyHeaderMapsToId("");
    }
  }

  /** `fieldMap[idx]`, undefined (None) past the last header. */
  function FieldAt(fm: seq<Option<Field>>, idx: nat): Option<Field> {
    if idx < |fm| then fm[idx] else None
  }

  /** The record every row starts from. */
  function Blank(): Participant {
    Participant("", "", "", "", "", "", SourceImport, false, None, None)
  }

  /** A participant's text field, for the fields a column can set directly. */
  function Get(p: Participant, f: Field): string
    requires f != FullName
  {
    match f
    case Id => p.id
    case Nom => p.nom
    case Prenom => p.prenom
    case Email => p.email
    case Company => p.company
    case Manager => p.manager
  }

  /** One step of `row.forEach`: a cell holding a value (falsy ones
      included) in a mapped column sets its field to the trimmed text, or,
      for a full-name column, sets `nom` and `prenom` from `parseFullName`;
      holes, `undefined` and `null` change nothing. */
  function Apply(p: Participant, f: Option<Field>, c: Cell): Participant {
    if f.None? || !c.Value? then p
    else
      var v := c.text;
      match f.value
      case Id => p.(id := Trim(v))
      case Nom => p.(nom := Trim(v))
      case FullName =>
        var n := ParseFullName(v);
        p.(nom := n.nom, prenom := n.prenom)
      case Prenom => p.(prenom := Trim(v))
      case Email => p.(email := Trim(v))
      case Company => p.(company := Trim(v))
      case Manager => p.(manager := Trim(v))
  }

  /** The record after `row.forEach` has visited the cells of `row`, left to
      right. */
  function Fill(fm: seq<Option<Field>>, row: seq<Cell>, p: Participant): Participant
    decreases |row|
  {
    if row == [] then p
    else Apply(Fill(fm, row[..|row| - 1], p), FieldAt(fm, |row| - 1), row[|row| - 1])
  }

  /** Column kind `g` writes participant field `f`: its own field, or `nom`
      and `prenom` for a full-name column. */
  predicate Writes(g: Field, f: Field) {
    g == f || (g == FullName && (f == Nom || f == Prenom))
  }

  /** What a cell `v` of column kind `g` writes into field `f`. */
  function Written(g: Field, v: string, f: Field): string {
    if g == FullName then
      (if f == Nom then ParseFullName(v).nom else ParseFullName(v).prenom)
    else Trim(v)
  }

  /** The last cell of `row` holding a value whose column writes field
      `f`, with its column kind. */
  function LastWrite(fm: seq<Option<Field>>, row: seq<Cell>, f: Field): (r: Option<(Field, string)>)
    ensures r.Some? ==> Writes(r.value.0, f)
    decreases |row|
  {
    if row == [] then None
    else
      var k := |row| - 1;
      var g := FieldAt(fm, k);
      if g.Some? && row[k].Value? && Writes(g.value, f) then Some((g.value, row[k].text))
      else LastWrite(fm, row[..k], f)
  }

  /** Last write wins: each field of the filled record comes from the last
      present cell whose column writes it (trimmed, or split from a full
      name), or keeps its initial value; the bookkeeping fields are never
      touched. */
  lemma {:induction false} FillLastWriteWins(fm: seq<Option<Field>>, row: seq<Cell>, p: Participant, f: Field)
    requires f != FullName
    ensures Get(Fill(fm, row, p), f) ==
      match LastWrite(fm, row, f)
      case None => Get(p, f)
      case Some(w) => Written(w.0, w.1, f)
    decreases |row|
  {
    if row != [] {
      var k := |row| - 1;
      FillLastWriteWins(fm, row[..k], p, f);
      ApplyWrites(Fill(fm, row[..k], p), FieldAt(fm, k), row[k], f);
    }
  }

  /** One cell changes field `f` only when its column writes `f`. */
  lemma ApplyWrites(p: Participant, g: Option<Field>, c: Cell, f: Field)
    requires f != FullName
    ensures Get(Apply(p, g, c), f) ==
      if g.Some? && c.Value? && Writes(g.value, f) then Written(g.value, c.text, f) else Get(p, f)
  {
  }

  /** Filling a record never touches its bookkeeping fields. */
  lemma {:induction false} FillKeepsBookkeeping(fm: seq<Option<Field>>, row: seq<Cell>, p: Participant)
    ensures Fill(fm, row, p).source == p.source
    ensures Fill(fm, row, p).isPresent == p.isPresent
    ensures Fill(fm, row, p).presenceDate == p.presenceDate
    ensures Fill(fm, row, p).validationMode == p.validationMode
    decreases |row|
  {
    if row != [] {
      FillKeepsBookkeeping(fm, row[..|row| - 1], p);
    }
  }

  /** The `row.forEach` loop. */
  method MapRow(fm: seq<Option<Field>>, row: seq<Cell>) returns (p: Participant)
    ensures p == Fill(fm, row, Blank())
  {
    p := Blank();
    for idx := 0 to |row|
      invariant p == Fill(fm, row[..idx], Blank())
    {
      assert row[..idx + 1][..idx] == row[..idx];
      p := Apply(p, FieldAt(fm, idx), row[idx]);
    }
    assert row[..|row|] == row;
  }

  /** The row's record once it has an id: its own, or the one generated
      for it when the id column is missing, empty or blank. */
  function Candidate(fm: seq<Option<Field>>, row: seq<Cell>, generated: string): Participant {
    var p := Fill(fm, row, Blank());
    if p.id == "" then p.(id := generated) else p
  }

  /** A record with a surname, first names or an email is kept. */
  predicate HasName(p: Participant) {
    p.nom != "" || p.prenom != "" || p.email != ""
  }

  /** The records of data rows 1 to n - 1 that survive the empty-row and
      no-name checks, in row order; row i draws `gen(i)` when it needs an
      id. */
  function Candidates(fm: seq<Option<Field>>, sheet: seq<seq<Cell>>, gen: nat -> string, n: nat): (cs: seq<Participant>)
    requires n <= |sheet|
    ensures n >= 1 ==> |cs| <= n - 1
  {
    if n <= 1 then []
    else
      var cs := Candidates(fm, sheet, gen, n - 1);
      var row := sheet[n - 1];
      if |row| == 0 then cs
      else
        var p := Candidate(fm, row, gen(n - 1));
        if HasName(p) then cs + [p] else cs
  }

  /** The ids of a list of participants. */
  function Ids(ps: seq<Participant>): set<string> {
    set p | p in ps :: p.id
  }

  /** Deduplication by id, first occurrence wins: a record is kept unless
      an earlier kept record has its id. */
  function DedupById(ps: seq<Participant>): seq<Participant>
    decreases |ps|
  {
    if ps == [] then []
    else
      var d := DedupById(ps[..|ps| - 1]);
      if ps[|ps| - 1].id in Ids(d) then d else d + [ps[|ps| - 1]]
  }

  lemma IdsSnoc(ps: seq<Participant>, p: Participant)
    ensures Ids(ps + [p]) == Ids(ps) + {p.id}
  {
    assert forall q :: q in ps + [p] <==> q in ps || q == p;
  }

  lemma DedupSnoc(cs: seq<Participant>, p: Participant)
    ensures DedupById(cs + [p]) ==
      if p.id in Ids(DedupById(cs)) then DedupById(cs) else DedupById(cs) + [p]
  {
    assert (cs + [p])[..|cs|] == cs;
  }

  /** The position of the first record of `ps` with id `id`, or |ps|. */
  function FirstWithId(ps: seq<Participant>, id: string): (k: nat)
    ensures k <= |ps|
    ensures k < |ps| ==> ps[k].id == id
    ensures forall j :: 0 <= j < k ==> ps[j].id != id
  {
    if ps == [] then 0
    else if ps[0].id == id then 0
    else 1 + FirstWithId(ps[1..], id)
  }

  lemma FirstWithIdSnoc(ps: seq<Participant>, p: Participant, id: string)
    ensures FirstWithId(ps + [p], id) ==
      if FirstWithId(ps, id) < |ps| then FirstWithId(ps, id) else if p.id == id then |ps| else |ps| + 1
  {
    var k := FirstWithId(ps + [p], id);
    var k0 := FirstWithId(ps, id);
    if k < |ps| {
      assert (ps + [p])[k] == ps[k];
    }
    if k0 < |ps| {
      assert (ps + [p])[k0] == ps[k0];
    } else if p.id == id {
      assert (ps + [p])[|ps|] == p;
    }
  }

  lemma IdsIndex(ps: seq<Participant>, id: string)
    ensures id in Ids(ps) <==> FirstWithId(ps, id) < |ps|
  {
    if FirstWithId(ps, id) < |ps| {
      assert ps[FirstWithId(ps, id)] in ps;
    }
  }

  /** Deduplication keeps one record per id, the first one: the kept ids
      are exactly the input's ids, no two kept records share an id, each
      kept record is the first input record with its id, and the kept
      records keep their input order. */
  lemma DedupByIdFirstWins(ps: seq<Participant>)
    ensures Ids(DedupById(ps)) == Ids(ps)
    ensures forall a, b :: 0 <= a < b < |DedupById(ps)| ==> DedupById(ps)[a].id != DedupById(ps)[b].id
    ensures forall q :: q in DedupById(ps) ==> FirstWithId(ps, q.id) < |ps| && ps[FirstWithId(ps, q.id)] == q
    ensures IsSubseq(DedupById(ps), ps)
  {
    DedupKeepsIds(ps);
    DedupDistinct(ps);
    DedupFirst(ps);
    DedupSubseq(ps);
  }

  /** The kept ids are exactly the input's ids. */
  lemma {:induction false} DedupKeepsIds(ps: seq<Participant>)
    ensures Ids(DedupById(ps)) == Ids(ps)
    decreases |ps|
  {
    if ps != [] {
      var init := ps[..|ps| - 1];
      var x := ps[|ps| - 1];
      assert ps == init + [x];
      DedupKeepsIds(init);
      IdsSnoc(init, x);
      IdsSnoc(DedupById(init), x);
    }
  }

  /** No two kept records share an id. */
  lemma {:induction false} DedupDistinct(ps: seq<Participant>)
    ensures forall a, b :: 0 <= a < b < |DedupById(ps)| ==> DedupById(ps)[a].id != DedupById(ps)[b].id
    decreases |ps|
  {
    if ps != [] {
      var init := ps[..|ps| - 1];
      var x := ps[|ps| - 1];
      var d := DedupById(init);
      DedupDistinct(init);
      if x.id !in Ids(d) {
        forall a | 0 <= a < |d| ensures d[a].id != x.id {
          assert d[a] in d;
        }
      }
    }
  }

  /** Each kept record is the first input record with its id. */
  lemma {:induction false} DedupFirst(ps: seq<Participant>)
    ensures forall q :: q in DedupById(ps) ==> FirstWithId(ps, q.id) < |ps| && ps[FirstWithId(ps, q.id)] == q
    decreases |ps|
  {
    if ps != [] {
      var init := ps[..|ps| - 1];
      var x := ps[|ps| - 1];
      assert ps == init + [x];
      var d := DedupById(init);
      DedupFirst(init);
      forall q | q in DedupById(ps)
        ensures FirstWithId(ps, q.id) < |ps| && ps[FirstWithId(ps, q.id)] == q
      {
        FirstWithIdSnoc(init, x, q.id);
        if q in d {
          assert ps[FirstWithId(init, q.id)] == init[FirstWithId(init, q.id)];
        } else {
          assert q == x && x.id !in Ids(d);
          DedupKeepsIds(init);
          IdsIndex(init, x.id);
        }
      }
    }
  }

  /** The kept records keep their input order. */
  lemma {:induction false} DedupSubseq(ps: seq<Participant>)
    ensures IsSubseq(DedupById(ps), ps)
    decreases |ps|
  {
    if ps != [] {
      var init := ps[..|ps| - 1];
      var x := ps[|ps| - 1];
      assert ps == init + [x];
      DedupSubseq(init);
      var d := DedupById(init);
      if x.id in Ids(d) {
        SubseqSnocRight(d, init, x);
      } else {
        SubseqSnocBoth(d, init, x);
      }
    }
  }

  /** One more data row adds its record when the row is not empty and the
      record has a name. */
  lemma CandidatesNext(fm: seq<Option<Field>>, sheet: seq<seq<Cell>>, gen: nat -> string, i: nat)
    requires 1 <= i < |sheet|
    ensures var p := Candidate(fm, sheet[i], gen(i));
            Candidates(fm, sheet, gen, i + 1) ==
              if |sheet[i]| == 0 || !HasName(p) then Candidates(fm, sheet, gen, i)
              else Candidates(fm, sheet, gen, i) + [p]
  {
  }

  /** A record as the import creates it: from the import, absent, with no
      check-in. */
  predicate FreshImport(p: Participant) {
    p.source == SourceImport && !p.isPresent && p.presenceDate.None? && p.validationMode.None?
  }

  /** Every kept row yields a fresh imported record with a name or an
      email; when the generator only yields ids of its documented shape,
      every record has a non-empty id. */
  lemma {:induction false} CandidatesShape(fm: seq<Option<Field>>, sheet: seq<seq<Cell>>, gen: nat -> string, n: nat)
    requires n <= |sheet|
    ensures forall q :: q in Candidates(fm, sheet, gen, n) ==> FreshImport(q) && HasName(q)
    ensures (forall k :: GeneratedId(gen(k))) ==>
              forall q :: q in Candidates(fm, sheet, gen, n) ==> q.id != ""
    decreases n
  {
    if n > 1 {
      CandidatesShape(fm, sheet, gen, n - 1);
      var row := sheet[n - 1];
      FillKeepsBookkeeping(fm, row, Blank());
      if forall k :: GeneratedId(gen(k)) {
        GeneratedIdIsTruthy(gen(n - 1));
      }
    }
  }

  /** The deduplicated records of a sheet carry distinct ids, and each is a
      fresh imported record with a name or an email. */
  lemma ImportedRecords(fm: seq<Option<Field>>, sheet: seq<seq<Cell>>, gen: nat -> string)
    ensures var ps := DedupById(Candidates(fm, sheet, gen, |sheet|));
            && (forall a, b :: 0 <= a < b < |ps| ==> ps[a].id != ps[b].id)
            && (forall q :: q in ps ==> FreshImport(q) && HasName(q))
  {
    var cs := Candidates(fm, sheet, gen, |sheet|);
    DedupDistinct(cs);
    DedupFirst(cs);
    CandidatesShape(fm, sheet, gen, |sheet|);
    forall q | q in DedupById(cs) ensures FreshImport(q) && HasName(q) {
      assert cs[FirstWithId(cs, q.id)] in cs;
    }
  }

  /** What `parseExcelFile` resolves with. */
  datatype ImportResult = ImportResult(
    participants: seq<Participant>,
    totalRows: nat,
    imported: nat,
    duplicates: nat,
    headers: seq<Option<string>>)

  /** The promise settles with a result or is rejected with a message. */
  datatype ImportOutcome = Imported(result: ImportResult) | Rejected(message: string)

  const EmptyFileMessage: string := "Le fichier est vide ou ne contient pas assez de données"

  /** The body of `reader.onload`: reject a sheet with fewer than two rows,
      otherwise map the headers and walk the data rows, skipping empty and
      nameless rows and counting rows whose id was already seen. `gen(i)`
      is the id `generateId()` would return for row i. */
  method ParseExcelFile(sheet: seq<seq<Cell>>, gen: nat -> string) returns (r: ImportOutcome)
    ensures |sheet| < 2 <==> r == Rejected(EmptyFileMessage)
    ensures r.Imported? ==>
      var fm := FieldMap(Headers(sheet[0]));
      var cs := Candidates(fm, sheet, gen, |sheet|);
      && r.result.participants == DedupById(cs)
      && r.result.totalRows == |sheet| - 1
      && r.result.imported == |r.result.participants|
      && r.result.duplicates == |cs| - |r.result.participants|
      && r.result.headers == Headers(sheet[0])
    ensures r.Imported? ==>
      var ps := r.result.participants;
      && r.result.imported + r.result.duplicates <= r.result.totalRows
      && (forall a, b :: 0 <= a < b < |ps| ==> ps[a].id != ps[b].id)
      && (forall q :: q in ps ==> FreshImport(q) && HasName(q))
  {
    if |sheet| < 2 {
      return Rejected(EmptyFileMessage);
    }
    var headers := Headers(sheet[0]);
    var fm := FieldMap(headers);
    var participants: seq<Participant> := [];
    var seen: set<string> := {};
    var duplicates: nat := 0;
    for i := 1 to |sheet|
      invariant participants == DedupById(Candidates(fm, sheet, gen, i))
      invariant seen == Ids(participants)
      invariant duplicates + |participants| == |Candidates(fm, sheet, gen, i)|
    {
      ghost var cs := Candidates(fm, sheet, gen, i);
      CandidatesNext(fm, sheet, gen, i);
      var row := sheet[i];
      if |row| == 0 {
        continue;
      }
      var p := MapRow(fm, row);
      if p.id == "" {
        p := p.(id := gen(i));
      }
      assert p == Candidate(fm, row, gen(i));
      if !HasName(p) {
        continue;
      }
      DedupSnoc(cs, p);
      if p.id in seen {
        duplicates := duplicates + 1;
        continue;
      }
      IdsSnoc(participants, p);
      seen := seen + {p.id};
      participants := participants + [p];
    }
    ImportedRecords(fm, sheet, gen);
    r := Imported(ImportResult(participants, |sheet| - 1, |participants|, duplicates, headers));
  }

  // ---------------------------------------------------------------- export

  /** The header row of `exportToExcel`. */
  const ExportHeaders: seq<string> :=
    ["ID", "Nom", "Prénom", "Email", "Présent", "Date validation", "Mode validation", "Source"]

  /** One exported row, in header order. `localeString` stands for
      `new Date(...).toLocaleString('fr-FR')` with its default options
      (date and time, seconds included). */
  function ExportRow(p: Participant, localeString: string -> string): (r: seq<string>)
    ensures |r| == |ExportHeaders|
    ensures r[..4] == [p.id, p.nom, p.prenom, p.email]
    ensures r[4] in {"Oui", "Non"} && (r[4] == "Oui" <==> p.isPresent)
    ensures r[5] == "" <==> !Truthy(p.presenceDate) || localeString(p.presenceDate.value) == ""
    ensures Truthy(p.presenceDate) ==> r[5] == localeString(p.presenceDate.value)
    ensures r[6] == "" <==> p.validationMode.None? || p.validationMode.value == ""
    ensures p.validationMode.Some? ==> r[6] == p.validationMode.value
    ensures r[7] != ""
    ensures p.source == "" ==> r[7] == SourceImport
    ensures p.source != "" ==> r[7] == p.source
  {
    [p.id, p.nom, p.prenom, p.email, PresentCell(p), DateCell(p, localeString), ModeCell(p), SourceCell(p)]
  }

  /** The sheet handed to `aoa_to_sheet`: the header row, then one row per
      participant, in roster order. */
  function ExportSheet(ps: seq<Participant>, localeString: string -> string): (sheet: seq<seq<string>>)
    ensures |sheet| == |ps| + 1 && sheet[0] == ExportHeaders
    ensures forall k :: 0 <= k < |ps| ==> sheet[k + 1] == ExportRow(ps[k], localeString)
  {
    [ExportHeaders] + seq(|ps|, k requires 0 <= k < |ps| => ExportRow(ps[k], localeString))
  }
}
