/** The bibliography record normaliser and description builder: the parsed
    entries of a bibliography file are turned, per citation key, into an
    author string, a title, a date, a publication name, keywords and an
    abstract, and then into one spoken description per entry. */
module Bibtex {
  import opened Wrappers
  import opened Strings

  /** One parsed bibliography entry: field name to field text, including the
      parser's "ID" (the citation key) and "ENTRYTYPE". */
  type Record = map<string, string>

  /** Why processing stops where the source raises. */
  datatype Fault =
    | NotUnique                     // assertion: two entries share a citation key
    | TooManyCommas                 // assertion: an author name with two or more commas
    | MissingField(field: string)   // KeyError on a required field
    | MonthWithoutYear              // formatting a month with a missing year

  /** `article.get(field, None)` */
  function Get(rec: Record, field: string): Option<string>
  {
    if field in rec then Some(rec[field]) else None
  }

  /** `article[field]` */
  function Field(rec: Record, field: string): Result<string, Fault>
  {
    if field in rec then Success(rec[field]) else Failure(MissingField(field))
  }

  /** Python's truth value of an optional string: present and non-empty. */
  predicate Truthy(o: Option<string>)
  {
    o.Some? && o.value != ""
  }

  /** Every part stripped: `[p.strip() for p in parts]`. */
  function StripAll(parts: seq<string>): (r: seq<string>)
    ensures |r| == |parts|
    ensures forall i :: 0 <= i < |parts| ==> r[i] == Strip(parts[i])
  {
    if parts == [] then [] else [Strip(parts[0])] + StripAll(parts[1..])
  }

  // ---------------------------------------------------------------------
  // authors

  /** One author name as "First Last": split on ',', strip the parts,
      reverse them and join them with a space; more than two parts is an
      assertion failure. */
  function FirstLast(author: string): Result<string, Fault>
  {
    var parts := StripAll(Split(author, ","));
    if |parts| > 2 then Failure(TooManyCommas)
    else if |parts| == 2 then Success(parts[1] + " " + parts[0])
    else Success(parts[0])
  }

  /** "Last, First" becomes "First Last", a name without a comma is only
      stripped, and a name with two or more commas is refused. */
  lemma FirstLastCases(author: string)
    ensures Count(author, ',') == 0 ==> FirstLast(author) == Success(Strip(author))
    ensures FirstLast(author).Failure? <==> Count(author, ',') >= 2
    ensures FirstLast(author).Failure? ==> FirstLast(author).error == TooManyCommas
    ensures forall i :: 0 <= i < |author| && author[i] == ',' && Count(author, ',') == 1 ==>
              FirstLast(author) == Success(Strip(author[i + 1..]) + " " + Strip(author[..i]))
  {
    FirstLastFails(author);
    if Count(author, ',') == 0 {
      FirstLastNoComma(author);
    }
    forall i | 0 <= i < |author| && author[i] == ',' && Count(author, ',') == 1 {
      FirstLastOneComma(author, i);
    }
  }

  lemma FirstLastFails(author: string)
    ensures FirstLast(author).Failure? <==> Count(author, ',') >= 2
    ensures FirstLast(author).Failure? ==> FirstLast(author).error == TooManyCommas
  {
    SplitChar(author, ',');
  }

  lemma FirstLastNoComma(author: string)
    requires Count(author, ',') == 0
    ensures FirstLast(author) == Success(Strip(author))
  {
    SplitNone(author, ',');
    assert StripAll([author]) == [Strip(author)];
  }

  lemma FirstLastOneComma(author: string, i: nat)
    requires i < |author| && author[i] == ',' && Count(author, ',') == 1
    ensures FirstLast(author) == Success(Strip(author[i + 1..]) + " " + Strip(author[..i]))
  {
    SplitAtOnly(author, ',', i);
    var parts := StripAll(Split(author, ","));
    assert |parts| == 2 && parts[0] == Strip(author[..i]) && parts[1] == Strip(author[i + 1..]);
  }

  /** The spoken author list: one name; "A and B"; "A, B, and C"; or, for
      four or more, "A et al". */
  function AuthorList(names: seq<string>): string
    requires names != []
  {
    if |names| == 1 then names[0]
    else if |names| == 2 then names[0] + " and " + names[1]
    else if |names| == 3 then names[0] + ", " + names[1] + ", and " + names[2]
    else names[0] + " et al"
  }

  /** The author names of an entry: its "author" field split on " and ",
      each name stripped. */
  function AuthorNames(rec: Record): seq<string>
    requires "author" in rec
  {
    StripAll(Split(rec["author"], " and "))
  }

  /** The author string of one entry. */
  function AuthorOf(rec: Record): Result<string, Fault>
  {
    if "author" !in rec then Failure(MissingField("author"))
    else
      var names := AuthorNames(rec);
      match MapAll(names, FirstLast)
      case Failure(e) => Failure(e)
      case Success(firstLast) => Success(AuthorList(firstLast))
  }

  /** Converting a list of names succeeds exactly when no name holds two
      commas, and otherwise reports that. */
  lemma AllFirstLast(names: seq<string>)
    ensures MapAll(names, FirstLast).Success? <==> forall i :: 0 <= i < |names| ==> Count(names[i], ',') <= 1
    ensures MapAll(names, FirstLast).Failure? ==> MapAll(names, FirstLast).error == TooManyCommas
  {
    MapAllSuccess(names, FirstLast);
    forall i | 0 <= i < |names|
      ensures FirstLast(names[i]).Success? <==> Count(names[i], ',') <= 1
      ensures FirstLast(names[i]).Failure? ==> FirstLast(names[i]).error == TooManyCommas
    {
      FirstLastCases(names[i]);
    }
    if MapAll(names, FirstLast).Failure? {
      MapAllFailure(names, FirstLast);
    }
  }

  /** The spoken list: the one name itself; "A and B"; "A, B, and C"; from
      four names on only the first, "et al". It always opens with the first
      name. */
  lemma AuthorListCases(names: seq<string>)
    requires names != []
    ensures names[0] <= AuthorList(names)
    ensures |names| == 1 ==> AuthorList(names) == names[0]
    ensures |names| == 2 ==> AuthorList(names) == names[0] + " and " + names[1]
    ensures |names| == 3 ==> AuthorList(names) == names[0] + ", " + names[1] + ", and " + names[2]
    ensures |names| >= 4 ==> AuthorList(names) == names[0] + " et al"
  {
  }

  /** An entry's author string exists exactly when it has an author field
      whose names each hold at most one comma; it always starts with the
      first author, and from four authors on it is that author "et al"
      (AuthorOfJoin gives the one to three author cases). */
  lemma AuthorOfCases(rec: Record)
    ensures "author" !in rec ==> AuthorOf(rec) == Failure(MissingField("author"))
    ensures "author" in rec ==>
              var names := AuthorNames(rec);
              && names != []
              && (AuthorOf(rec).Success? <==> forall i :: 0 <= i < |names| ==> Count(names[i], ',') <= 1)
              && (AuthorOf(rec).Failure? ==> AuthorOf(rec).error == TooManyCommas)
              && (AuthorOf(rec).Success? ==> FirstLast(names[0]).Success? &&
                                             FirstLast(names[0]).value <= AuthorOf(rec).value)
              && (AuthorOf(rec).Success? && |names| >= 4 ==>
                    AuthorOf(rec).value == FirstLast(names[0]).value + " et al")
  {
    if "author" in rec {
      var names := AuthorNames(rec);
      AllFirstLast(names);
      MapAllSuccess(names, FirstLast);
      if MapAll(names, FirstLast).Success? {
        AuthorListCases(MapAll(names, FirstLast).value);
      }
    }
  }

  /** The author string of an entry with one, two or three authors joins
      their "First Last" forms as "A", "A and B" or "A, B, and C". */
  lemma AuthorOfJoin(rec: Record)
    requires "author" in rec && AuthorOf(rec).Success?
    ensures var names := AuthorNames(rec);
            && (forall i :: 0 <= i < |names| ==> FirstLast(names[i]).Success?)
            && (|names| == 1 ==> AuthorOf(rec).value == FirstLast(names[0]).value)
            && (|names| == 2 ==>
                  AuthorOf(rec).value == FirstLast(names[0]).value + " and " + FirstLast(names[1]).value)
            && (|names| == 3 ==>
                  AuthorOf(rec).value == FirstLast(names[0]).value + ", " + FirstLast(names[1]).value
                                         + ", and " + FirstLast(names[2]).value)
  {
    var names := AuthorNames(rec);
    MapAllSuccess(names, FirstLast);
    var fl := MapAll(names, FirstLast).value;
    assert AuthorOf(rec).value == AuthorList(fl);
    AuthorListCases(fl);
  }

  // ---------------------------------------------------------------------
  // the other fields

  function IdOf(rec: Record): Result<string, Fault>
  {
    Field(rec, "ID")
  }

  function TitleOf(rec: Record): Result<string, Fault>
  {
    Field(rec, "title")
  }

  /** The date of one entry: the year, or "month year" when there is a
      month too; a month without a year cannot be formatted. */
  function DateOf(rec: Record): (r: Result<Option<string>, Fault>)
    ensures r.Failure? <==> "month" in rec && "year" !in rec
    ensures r.Failure? ==> r.error == MonthWithoutYear
    ensures r.Success? ==> (r.value.None? <==> "year" !in rec)
    ensures r.Success? && r.value.Some? ==>
              && |rec["year"]| <= |r.value.value|
              && r.value.value[|r.value.value| - |rec["year"]|..] == rec["year"]
              && ("month" in rec ==> r.value.value == rec["month"] + " " + rec["year"])
              && ("month" !in rec ==> r.value.value == rec["year"])
  {
    var year := Get(rec, "year");
    var month := Get(rec, "month");
    if month.None? then Success(year)
    else if year.None? then Failure(MonthWithoutYear)
    else Success(Some(month.value + " " + year.value))
  }

  /** The publication of one entry: the journal of an article (which must
      be there), otherwise the book title if there is one. */
  function PublicationOf(rec: Record): (r: Result<Option<string>, Fault>)
    ensures r.Failure? <==> "ENTRYTYPE" !in rec || (rec["ENTRYTYPE"] == "article" && "journal" !in rec)
    ensures r.Success? && rec["ENTRYTYPE"] == "article" ==> r.value == Some(rec["journal"])
    ensures r.Success? && rec["ENTRYTYPE"] != "article" ==>
              (r.value.Some? <==> "booktitle" in rec) && (r.value.Some? ==> r.value.value == rec["booktitle"])
  {
    if "ENTRYTYPE" !in rec then Failure(MissingField("ENTRYTYPE"))
    else if rec["ENTRYTYPE"] == "article" then
      match Field(rec, "journal")
      case Failure(e) => Failure(e)
      case Success(journal) => Success(Some(journal))
    else Success(Get(rec, "booktitle"))
  }

  function KeywordsOf(rec: Record): Result<Option<string>, Fault>
  {
    Success(Get(rec, "keywords"))
  }

  function AbstractOf(rec: Record): Result<Option<string>, Fault>
  {
    Success(Get(rec, "abstract"))
  }

  // ---------------------------------------------------------------------
  // keys and tables

  predicate Distinct(keys: seq<string>)
  {
    forall i, j :: 0 <= i < j < |keys| ==> keys[i] != keys[j]
  }

  function KeySet(keys: seq<string>): set<string>
  {
    set k | k in keys
  }

  /** The source's uniqueness test, "as many distinct keys as keys", holds
      exactly when no key repeats. */
  lemma {:induction false} DistinctIffSetSize(keys: seq<string>)
    ensures |KeySet(keys)| == |keys| <==> Distinct(keys)
    ensures |KeySet(keys)| <= |keys|
    decreases |keys|
  {
    if keys != [] {
      var rest := keys[1..];
      DistinctIffSetSize(rest);
      assert KeySet(keys) == {keys[0]} + KeySet(rest);
      if keys[0] in rest {
        assert KeySet(keys) == KeySet(rest);
        var j :| 0 <= j < |rest| && rest[j] == keys[0];
        assert keys[j + 1] == keys[0];
      } else {
        assert |KeySet(keys)| == |KeySet(rest)| + 1;
        if Distinct(rest) {
          assert forall j :: 0 < j < |keys| ==> keys[j] == rest[j - 1];
        }
      }
    }
  }

  /** In a list without repeats, each key is new to the keys before it. */
  lemma NewKey(keys: seq<string>, i: nat)
    requires Distinct(keys) && i < |keys|
    ensures keys[i] !in keys[..i]
    ensures keys[..i + 1] == keys[..i] + [keys[i]]
  {
  }

  /** `m` maps each key to the value at the same position. */
  ghost predicate Tabulates<T>(m: map<string, T>, keys: seq<string>, vals: seq<T>)
  {
    && |keys| == |vals|
    && m.Keys == KeySet(keys)
    && forall i :: 0 <= i < |keys| ==> m[keys[i]] == vals[i]
  }

  lemma SubsetCard<K>(a: set<K>, b: set<K>)
    requires a <= b
    ensures |a| <= |b|
  {
    assert b == a + (b - a);
    assert a * (b - a) == {};
  }

  /** A subset as large as its superset is all of it. */
  lemma SubsetSameSize<K>(a: set<K>, b: set<K>)
    requires a <= b && |a| == |b|
    ensures a == b
  {
    assert b == a + (b - a);
    assert a * (b - a) == {};
  }

  lemma Assoc(a: string, b: string, c: string)
    ensures a + b + c == a + (b + c)
  {
  }

  /** Adding a new key at the end of a table keeps the earlier rows. */
  lemma TabulatesSnoc<T>(m: map<string, T>, keys: seq<string>, vals: seq<T>, k: string, v: T)
    requires Tabulates(m, keys, vals) && k !in keys
    ensures Tabulates(m[k := v], keys + [k], vals + [v])
  {
  }

  /** The keys whose value is None. */
  function NoneKeys<T>(m: map<string, Option<T>>): set<string>
  {
    set k | k in m && m[k].None?
  }

  /** How many entries of a table are None: the number the source reports
      as missing. */
  method CountNone<T>(m: map<string, Option<T>>) returns (n: nat)
    ensures n == |NoneKeys(m)|
    ensures n <= |m|
  {
    n := 0;
    var todo := m.Keys;
    while todo != {}
      invariant todo <= m.Keys
      invariant n == |set k | k in m.Keys - todo && m[k].None?|
      decreases |todo|
    {
      var k :| k in todo;
      ghost var before := set x | x in m.Keys - todo && m[x].None?;
      ghost var after := set x | x in m.Keys - (todo - {k}) && m[x].None?;
      if m[k].None? {
        assert after == before + {k};
        n := n + 1;
      } else {
        assert after == before;
      }
      todo := todo - {k};
    }
    assert m.Keys - todo == m.Keys;
    SubsetCard(NoneKeys(m), m.Keys);
  }

  /** `f` succeeds on every entry, and `m` has a row for every key: the
      value `f` computes for that key's entry. */
  ghost predicate Tabled<T>(lib: seq<Record>, keys: seq<string>, m: map<string, T>, f: Record -> Result<T, Fault>)
  {
    MapAll(lib, f).Success? && HasRows(keys, m, MapAll(lib, f).value)
  }

  /** `m` has exactly one row per key, holding the value at the key's position. */
  ghost predicate HasRows<T>(keys: seq<string>, m: map<string, T>, vals: seq<T>)
  {
    && |keys| == |vals| == |m|
    && forall i {:trigger Row(m, keys[i])} :: 0 <= i < |keys| ==> Row(m, keys[i]) == Some(vals[i])
  }

  /** The row of key `k` in `m`, if any. */
  function Row<T>(m: map<string, T>, k: string): Option<T>
  {
    if k in m then Some(m[k]) else None
  }

  /** A table built position by position from a successful traversal, over
      keys without repeats, holds each entry's value under its key. */
  lemma TabulatesTabled<T>(lib: seq<Record>, keys: seq<string>, m: map<string, T>, vals: seq<T>,
                           f: Record -> Result<T, Fault>)
    requires Tabulates(m, keys, vals) && Distinct(keys) && |keys| == |lib|
    requires MapAll(lib, f) == Success(vals)
    ensures Tabled(lib, keys, m, f)
  {
    DistinctIffSetSize(keys);
    assert |m| == |m.Keys|;
    forall i | 0 <= i < |keys|
      ensures Row(m, keys[i]) == Some(vals[i])
    {
      assert keys[i] in KeySet(keys);
    }
  }

  /** The number of None values. */
  function Nones<T>(vals: seq<Option<T>>): (n: nat)
    ensures n <= |vals|
    decreases |vals|
  {
    if vals == [] then 0
    else Nones(vals[..|vals| - 1]) + (if vals[|vals| - 1].None? then 1 else 0)
  }

  /** The number of entries satisfying `p`. */
  function CountWhere(lib: seq<Record>, p: Record -> bool): (n: nat)
    ensures n <= |lib|
    decreases |lib|
  {
    if lib == [] then 0
    else CountWhere(lib[..|lib| - 1], p) + (if p(lib[|lib| - 1]) then 1 else 0)
  }

  /** When `f` gives None exactly for the entries satisfying `p`, a successful
      traversal has as many None values as there are such entries. */
  lemma {:induction false} NonesMapAll<T>(lib: seq<Record>, f: Record -> Result<Option<T>, Fault>, p: Record -> bool)
    requires MapAll(lib, f).Success?
    requires forall rec :: f(rec).Success? ==> (f(rec).value.None? <==> p(rec))
    ensures Nones(MapAll(lib, f).value) == CountWhere(lib, p)
    decreases |lib|
  {
    if lib != [] {
      var init := lib[..|lib| - 1];
      NonesMapAll(init, f, p);
      var vals := MapAll(lib, f).value;
      assert vals == MapAll(init, f).value + [f(lib[|lib| - 1]).value];
      assert vals[..|vals| - 1] == MapAll(init, f).value;
    }
  }

  /** The keys among the first `n` whose value is None. */
  ghost function NoneAt<T>(keys: seq<string>, vals: seq<Option<T>>, n: nat): set<string>
    requires n <= |keys| && n <= |vals|
  {
    set i | 0 <= i < n && vals[i].None? :: keys[i]
  }

  /** Over keys without repeats, each None value names a key of its own. */
  lemma {:induction false} NoneAtCard<T>(keys: seq<string>, vals: seq<Option<T>>, n: nat)
    requires Distinct(keys) && n <= |keys| == |vals|
    ensures |NoneAt(keys, vals, n)| == Nones(vals[..n])
    decreases n
  {
    if n == 0 {
      assert NoneAt(keys, vals, 0) == {};
    } else {
      NoneAtCard(keys, vals, n - 1);
      NoneAtStep(keys, vals, n - 1);
      assert vals[..n][..n - 1] == vals[..n - 1];
    }
  }

  /** Position `n` adds its key to the None keys when its value is None;
      that key is not among the earlier ones. */
  lemma NoneAtStep<T>(keys: seq<string>, vals: seq<Option<T>>, n: nat)
    requires Distinct(keys) && n < |keys| == |vals|
    ensures keys[n] !in NoneAt(keys, vals, n)
    ensures NoneAt(keys, vals, n + 1) ==
              NoneAt(keys, vals, n) + (if vals[n].None? then {keys[n]} else {})
  {
    forall k | k in NoneAt(keys, vals, n)
      ensures k != keys[n]
    {
      var i :| 0 <= i < n && vals[i].None? && keys[i] == k;
    }
  }

  /** The entries reported as missing a date, a publication, keywords or an abstract. */
  predicate NoYear(rec: Record)
  {
    "year" !in rec
  }

  predicate NoPublication(rec: Record)
  {
    "ENTRYTYPE" in rec && rec["ENTRYTYPE"] != "article" && "booktitle" !in rec
  }

  predicate NoKeywords(rec: Record)
  {
    "keywords" !in rec
  }

  predicate NoAbstract(rec: Record)
  {
    "abstract" !in rec
  }

  /** The missing counts reported for dates, publications, keywords and abstracts. */
  datatype Missing = Missing(dates: nat, publications: nat, keywords: nat, abstracts: nat)

  /** The first fault processing meets, in the source's order of checks. */
  function LoadFault(lib: seq<Record>): Option<Fault>
  {
    if MapAll(lib, IdOf).Failure? then Some(MapAll(lib, IdOf).error)
    else if !Distinct(MapAll(lib, IdOf).value) then Some(NotUnique)
    else TableFault(lib)
  }

  /** The first fault met while building the tables. */
  function TableFault(lib: seq<Record>): Option<Fault>
  {
    OrElse(ErrorOf(MapAll(lib, AuthorOf)), OrElse(ErrorOf(MapAll(lib, TitleOf)), CountFault(lib)))
  }

  /** The first fault met while building the tables whose missing rows are counted. */
  function CountFault(lib: seq<Record>): Option<Fault>
  {
    OrElse(ErrorOf(MapAll(lib, DateOf)), ErrorOf(MapAll(lib, PublicationOf)))
  }

  // ---------------------------------------------------------------------
  // descriptions

  /** The keyword list as written: split on ',', strip, prefix the last
      keyword with "and ", join with ", ". (The source's special cases for
      one and two keywords compare the list with an integer and never
      apply.) */
  function KeywordList(keywords: string): string
  {
    var kws := StripAll(Split(keywords, ","));
    Join(", ", kws[..|kws| - 1] + ["and " + kws[|kws| - 1]])
  }

  /** Every keyword appears, in order, and the last one after "and ", even
      when it is the only one. */
  lemma KeywordListShape(keywords: string)
    ensures var kws := StripAll(Split(keywords, ","));
            var n := |kws|;
            && n == Count(keywords, ',') + 1
            && KeywordList(keywords) ==
                 (if n == 1 then "" else Join(", ", kws[..n - 1]) + ", ") + ("and " + kws[n - 1])
  {
    KeywordCount(keywords);
    var kws := StripAll(Split(keywords, ","));
    var n := |kws|;
    var last := "and " + kws[n - 1];
    assert KeywordList(keywords) == Join(", ", kws[..n - 1] + [last]);
    if n == 1 {
      assert kws[..n - 1] + [last] == [last];
      assert "" + last == last;
    } else {
      JoinAppend(", ", kws[..n - 1], [last]);
    }
  }

  lemma KeywordCount(keywords: string)
    ensures |StripAll(Split(keywords, ","))| == Count(keywords, ',') + 1
  {
    SplitChar(keywords, ',');
  }

  /** A keyword field without a comma is read as "and" followed by it. */
  lemma SingleKeyword(keywords: string)
    requires Count(keywords, ',') == 0
    ensures KeywordList(keywords) == "and " + Strip(keywords)
  {
    SplitNone(keywords, ',');
    var kws := [Strip(keywords)];
    assert StripAll([keywords]) == kws;
    assert kws[..0] + ["and " + kws[0]] == ["and " + kws[0]];
  }

  function DatePart(date: Option<string>): string
  {
    if Truthy(date) then "In " + date.value + ", " else ""
  }

  function Headline(author: string, title: string): string
  {
    author + " published \"" + title + "\""
  }

  function PublicationPart(publication: Option<string>): string
  {
    if Truthy(publication) then " in " + publication.value + "." else ""
  }

  function KeywordsPart(keywords: Option<string>): string
  {
    if Truthy(keywords) then " This publication has the following keywords: " + KeywordList(keywords.value) + "."
    else ""
  }

  function AbstractPart(abstractText: Option<string>): string
  {
    if Truthy(abstractText) then "The abstract reads: " + abstractText.value else ""
  }

  /** The description of one entry, in the order the source assembles it:
      date, author and title, publication, keywords, abstract. */
  function Describe(date: Option<string>, author: string, title: string, publication: Option<string>,
                    keywords: Option<string>, abstractText: Option<string>): string
  {
    DatePart(date) + Headline(author, title) + PublicationPart(publication)
    + KeywordsPart(keywords) + AbstractPart(abstractText)
  }

  /** A date only adds the opening "In <date>, "; without one the
      description opens with the author and the quoted title. */
  lemma DescribeOpening(date: Option<string>, author: string, title: string, publication: Option<string>,
                        keywords: Option<string>, abstractText: Option<string>)
    ensures var rest := Describe(None, author, title, publication, keywords, abstractText);
            && author + " published \"" + title + "\"" <= rest
            && Describe(date, author, title, publication, keywords, abstractText) ==
                 (if Truthy(date) then "In " + date.value + ", " + rest else rest)
  {
    var d, h, p, k, a := DatePart(date), Headline(author, title), PublicationPart(publication),
                         KeywordsPart(keywords), AbstractPart(abstractText);
    var rest := h + p + k + a;
    assert Describe(None, author, title, publication, keywords, abstractText) == rest by {
      assert DatePart(None) == "";
      assert "" + h == h;
    }
    Assoc(h, p, k);
    Assoc(h, p + k, a);
    Assoc(d, h, p);
    Assoc(d, h + p, k);
    Assoc(d, h + p + k, a);
  }

  /** The abstract is appended directly, with no space before "The abstract
      reads: ", to a text that ends in "." when there is a publication or
      keywords and otherwise in the title's closing quote, with no period. */
  lemma DescribeEnding(date: Option<string>, author: string, title: string, publication: Option<string>,
                       keywords: Option<string>, abstractText: Option<string>)
    ensures var before := Describe(date, author, title, publication, keywords, None);
            && |before| > 0
            && before[|before| - 1] == (if Truthy(publication) || Truthy(keywords) then '.' else '"')
            && Describe(date, author, title, publication, keywords, abstractText) ==
                 (if Truthy(abstractText) then before + "The abstract reads: " + abstractText.value else before)
  {
    var d, h, p, k := DatePart(date), Headline(author, title), PublicationPart(publication), KeywordsPart(keywords);
    assert Describe(date, author, title, publication, keywords, None) == d + h + p + k;
    PartsEnd(author, title, publication, keywords);
    LastOfAppend(d, h);
    LastOfAppend(d + h, p);
    LastOfAppend(d + h + p, k);
    if Truthy(abstractText) {
      Assoc(d + h + p + k, "The abstract reads: ", abstractText.value);
    }
  }

  /** The publication clause " in <pub>." comes right after the title's
      closing quote exactly when the publication is truthy; otherwise the
      description is the one without a publication. */
  lemma DescribePublication(date: Option<string>, author: string, title: string, publication: Option<string>,
                            keywords: Option<string>, abstractText: Option<string>)
    ensures var w := Describe(date, author, title, None, keywords, abstractText);
            var n := |DatePart(date) + Headline(author, title)|;
            && 0 < n <= |w| && w[n - 1] == '"'
            && w[..n] == DatePart(date) + Headline(author, title)
            && (Truthy(publication) ==>
                  Describe(date, author, title, publication, keywords, abstractText) ==
                    w[..n] + (" in " + publication.value + ".") + w[n..])
            && (!Truthy(publication) ==> Describe(date, author, title, publication, keywords, abstractText) == w)
  {
    var d, h, p, k, a := DatePart(date), Headline(author, title), PublicationPart(publication),
                         KeywordsPart(keywords), AbstractPart(abstractText);
    var x, y := d + h, k + a;
    assert Describe(date, author, title, None, keywords, abstractText) == x + y by {
      assert PublicationPart(None) == "";
      assert d + h + "" == d + h;
      Assoc(d + h, k, a);
    }
    assert Describe(date, author, title, publication, keywords, abstractText) == x + p + y by {
      Assoc(d + h + p, k, a);
      Assoc(d + h, p, k + a);
    }
    InsertAt(x, p, y);
    PartsEnd(author, title, publication, keywords);
    LastOfAppend(d, h);
    if Truthy(publication) {
      assert p == " in " + publication.value + ".";
    } else {
      assert p == "" && x + "" + y == x + y;
    }
  }

  /** The keyword sentence " This publication has the following keywords:
      <list>." comes after the publication clause (or the title) and right
      before the abstract exactly when the keywords are truthy; otherwise
      the description is the one without keywords. */
  lemma DescribeKeywords(date: Option<string>, author: string, title: string, publication: Option<string>,
                         keywords: Option<string>, abstractText: Option<string>)
    ensures var w := Describe(date, author, title, publication, None, abstractText);
            var n := |DatePart(date) + Headline(author, title) + PublicationPart(publication)|;
            && n <= |w|
            && w[..n] == DatePart(date) + Headline(author, title) + PublicationPart(publication)
            && w[n..] == AbstractPart(abstractText)
            && (Truthy(keywords) ==>
                  Describe(date, author, title, publication, keywords, abstractText) ==
                    w[..n] + (" This publication has the following keywords: " + KeywordList(keywords.value) + ".")
                    + w[n..])
            && (!Truthy(keywords) ==> Describe(date, author, title, publication, keywords, abstractText) == w)
  {
    var d, h, p, k, a := DatePart(date), Headline(author, title), PublicationPart(publication),
                         KeywordsPart(keywords), AbstractPart(abstractText);
    var x := d + h + p;
    assert Describe(date, author, title, publication, None, abstractText) == x + a by {
      assert KeywordsPart(None) == "";
      assert x + "" == x;
    }
    InsertAt(x, k, a);
    if Truthy(keywords) {
      assert k == " This publication has the following keywords: " + KeywordList(keywords.value) + ".";
    } else {
      assert k == "" && x + "" + a == x + a;
    }
  }

  /** Inserting `m` where `x + y` splits into `x` and `y`. */
  lemma InsertAt(x: string, m: string, y: string)
    ensures |x| <= |x + y| && (x + y)[..|x|] == x && (x + y)[|x|..] == y
    ensures (x + y)[..|x|] + m + (x + y)[|x|..] == x + m + y
  {
    assert (x + y)[..|x|] == x;
    assert (x + y)[|x|..] == y;
  }

  /** The headline ends in the title's closing quote, and the publication
      and keyword parts, when present, end in a period. */
  lemma PartsEnd(author: string, title: string, publication: Option<string>, keywords: Option<string>)
    ensures var h := Headline(author, title); |h| > 0 && h[|h| - 1] == '"'
    ensures var p := PublicationPart(publication); (|p| > 0 <==> Truthy(publication)) && (|p| > 0 ==> p[|p| - 1] == '.')
    ensures var k := KeywordsPart(keywords); (|k| > 0 <==> Truthy(keywords)) && (|k| > 0 ==> k[|k| - 1] == '.')
  {
  }

  /** The last character of `x + y` is that of `y`, or of `x` when `y` is empty. */
  lemma LastOfAppend(x: string, y: string)
    requires |x + y| > 0
    ensures (x + y)[|x + y| - 1] == if |y| > 0 then y[|y| - 1] else x[|x| - 1]
  {
    if |y| == 0 {
      assert x + y == x;
    }
  }

  // ---------------------------------------------------------------------
  // the library

  /** The library of parsed entries and the per-key tables built from them. */
  class BibtexLibrary {
    const lib: seq<Record>
    var keys: seq<string>
    var author: map<string, string>
    var title: map<string, string>
    var date: map<string, Option<string>>
    var publication: map<string, Option<string>>
    var keywords: map<string, Option<string>>
    var abstracts: map<string, Option<string>>
    var description: map<string, string>

    /** A library of already parsed entries, not yet processed. */
    constructor (entries: seq<Record>)
      ensures lib == entries && keys == []
      ensures author == map[] && title == map[] && date == map[] && publication == map[]
      ensures keywords == map[] && abstracts == map[] && description == map[]
    {
      lib := entries;
      keys := [];
      author, title, date, publication := map[], map[], map[], map[];
      keywords, abstracts, description := map[], map[], map[];
    }

    /** `keys` lists every entry's citation key, in order, without repeats. */
    ghost predicate KeysReady()
      reads this`keys
    {
      MapAll(lib, IdOf) == Success(keys) && Distinct(keys)
    }

    ghost predicate AuthorsReady()
      reads this`keys, this`author
    {
      Tabled(lib, keys, author, AuthorOf)
    }

    ghost predicate TitlesReady()
      reads this`keys, this`title
    {
      Tabled(lib, keys, title, TitleOf)
    }

    ghost predicate DatesReady()
      reads this`keys, this`date
    {
      Tabled(lib, keys, date, DateOf)
    }

    ghost predicate PublicationsReady()
      reads this`keys, this`publication
    {
      Tabled(lib, keys, publication, PublicationOf)
    }

    ghost predicate KeywordsReady()
      reads this`keys, this`keywords
    {
      Tabled(lib, keys, keywords, KeywordsOf)
    }

    ghost predicate AbstractsReady()
      reads this`keys, this`abstracts
    {
      Tabled(lib, keys, abstracts, AbstractOf)
    }

    /** Every table holds, for each key, the value computed from its entry. */
    ghost predicate Processed()
      reads this`keys, this`author, this`title, this`date, this`publication, this`keywords, this`abstracts
    {
      KeysReady() && NamesReady() && CountsReady()
    }

    /** The author and title tables are built. */
    ghost predicate NamesReady()
      reads this`keys, this`author, this`title
    {
      AuthorsReady() && TitlesReady()
    }

    /** The date, publication, keyword and abstract tables are built. */
    ghost predicate CountsReady()
      reads this`keys, this`date, this`publication, this`keywords, this`abstracts
    {
      DatesReady() && PublicationsReady() && KeywordsReady() && AbstractsReady()
    }

    /** The loop every `_process_bib_*` method runs: for each key and its
        entry, in order, the value `f` computes for the entry; the first
        failure stops it. */
    method Tabulate<T>(f: Record -> Result<T, Fault>) returns (r: Result<map<string, T>, Fault>)
      requires KeysReady()
      ensures ErrorOf(r) == ErrorOf(MapAll(lib, f))
      ensures r.Success? ==> Tabled(lib, keys, r.value, f)
    {
      MapAllSuccess(lib, IdOf);
      var table: map<string, T> := map[];
      ghost var vals: seq<T> := [];
      for i := 0 to |lib|
        invariant MapAll(lib[..i], f) == Success(vals)
        invariant Tabulates(table, keys[..i], vals)
      {
        MapAllStep(lib, i, f);
        var v := f(lib[i]);
        if v.Failure? {
          MapAllPrefixFailure(lib, i + 1, f);
          return Failure(v.error);
        }
        NewKey(keys, i);
        TabulatesSnoc(table, keys[..i], vals, keys[i], v.value);
        table := table[keys[i] := v.value];
        vals := vals + [v.value];
      }
      assert lib[..|lib|] == lib && keys[..|lib|] == keys;
      TabulatesTabled(lib, keys, table, vals, f);
      r := Success(table);
    }

    /** The author table. */
    method ProcessBibAuthors() returns (r: Result<(), Fault>)
      requires KeysReady()
      modifies this`author
      ensures ErrorOf(r) == ErrorOf(MapAll(lib, AuthorOf))
      ensures r.Success? ==> AuthorsReady()
    {
      author := map[];
      var t := Tabulate(AuthorOf);
      if t.Failure? {
        return Failure(t.error);
      }
      author := t.value;
      r := Success(());
    }

    /** The title table. */
    method ProcessBibTitles() returns (r: Result<(), Fault>)
      requires KeysReady()
      modifies this`title
      ensures ErrorOf(r) == ErrorOf(MapAll(lib, TitleOf))
      ensures r.Success? ==> TitlesReady()
    {
      title := map[];
      var t := Tabulate(TitleOf);
      if t.Failure? {
        return Failure(t.error);
      }
      title := t.value;
      r := Success(());
    }

    /** A table's rows are exactly the citation keys. */
    lemma RowsAreKeys<T>(m: map<string, T>, f: Record -> Result<T, Fault>)
      requires KeysReady() && Tabled(lib, keys, m, f)
      ensures m.Keys == KeySet(keys)
    {
      DistinctIffSetSize(keys);
      forall k | k in KeySet(keys)
        ensures k in m
      {
        var i :| 0 <= i < |keys| && keys[i] == k;
        assert Row(m, keys[i]).Some?;
      }
      assert |m.Keys| == |m|;
      SubsetSameSize(KeySet(keys), m.Keys);
    }

    /** The None rows of a table are as many as the entries for which `f`
        gives None. */
    lemma MissingCount<T>(m: map<string, Option<T>>, f: Record -> Result<Option<T>, Fault>, p: Record -> bool)
      requires KeysReady() && Tabled(lib, keys, m, f)
      requires forall rec :: f(rec).Success? ==> (f(rec).value.None? <==> p(rec))
      ensures |NoneKeys(m)| == CountWhere(lib, p)
    {
      var vals := MapAll(lib, f).value;
      RowsAreKeys(m, f);
      forall k | k in NoneKeys(m)
        ensures k in NoneAt(keys, vals, |keys|)
      {
        assert k in KeySet(keys);
        var i :| 0 <= i < |keys| && keys[i] == k;
        assert Row(m, keys[i]).Some?;
      }
      forall k | k in NoneAt(keys, vals, |keys|)
        ensures k in NoneKeys(m)
      {
        var i :| 0 <= i < |keys| && vals[i].None? && keys[i] == k;
        assert Row(m, keys[i]).Some?;
      }
      assert NoneKeys(m) == NoneAt(keys, vals, |keys|);
      NoneAtCard(keys, vals, |keys|);
      assert vals[..|keys|] == vals;
      NonesMapAll(lib, f, p);
    }

    /** The date table, and how many dates are missing. */
    method ProcessBibDates() returns (r: Result<nat, Fault>)
      requires KeysReady()
      modifies this`date
      ensures ErrorOf(r) == ErrorOf(MapAll(lib, DateOf))
      ensures r.Success? ==> DatesReady() && r.value == |NoneKeys(date)| == CountWhere(lib, NoYear)
    {
      date := map[];
      var t := Tabulate(DateOf);
      if t.Failure? {
        return Failure(t.error);
      }
      date := t.value;
      var missing := CountNone(date);
      MissingCount(date, DateOf, NoYear);
      r := Success(missing);
    }

    /** The publication table, and how many publications are missing. */
    method ProcessBibPubnames() returns (r: Result<nat, Fault>)
      requires KeysReady()
      modifies this`publication
      ensures ErrorOf(r) == ErrorOf(MapAll(lib, PublicationOf))
      ensures r.Success? ==> PublicationsReady() && r.value == |NoneKeys(publication)| == CountWhere(lib, NoPublication)
    {
      publication := map[];
      var t := Tabulate(PublicationOf);
      if t.Failure? {
        return Failure(t.error);
      }
      publication := t.value;
      var missing := CountNone(publication);
      MissingCount(publication, PublicationOf, NoPublication);
      r := Success(missing);
    }

    /** The keyword table, and how many entries have no keywords. */
    method ProcessBibKeywords() returns (missing: nat)
      requires KeysReady()
      modifies this`keywords
      ensures KeywordsReady()
      ensures missing == |NoneKeys(keywords)| == CountWhere(lib, NoKeywords)
    {
      MapAllSuccess(lib, KeywordsOf);
      var t := Tabulate(KeywordsOf);
      keywords := t.value;
      missing := CountNone(keywords);
      MissingCount(keywords, KeywordsOf, NoKeywords);
    }

    /** The abstract table, and how many entries have no abstract. */
    method ProcessBibAbstracts() returns (missing: nat)
      requires KeysReady()
      modifies this`abstracts
      ensures AbstractsReady()
      ensures missing == |NoneKeys(abstracts)| == CountWhere(lib, NoAbstract)
    {
      MapAllSuccess(lib, AbstractOf);
      var t := Tabulate(AbstractOf);
      abstracts := t.value;
      missing := CountNone(abstracts);
      MissingCount(abstracts, AbstractOf, NoAbstract);
    }

    /** Collects the citation keys, refuses repeated ones, then builds every
        table; the result is the four missing counts, or the first fault. */
    method ProcessBibData() returns (r: Result<Missing, Fault>)
      modifies this`keys, this`author, this`title, this`date, this`publication, this`keywords, this`abstracts
      ensures ErrorOf(r) == LoadFault(lib)
      ensures r.Success? ==> Processed()
      ensures r.Success? ==> r.value == Missing(CountWhere(lib, NoYear), CountWhere(lib, NoPublication),
                                                CountWhere(lib, NoKeywords), CountWhere(lib, NoAbstract))
    {
      var ids := MapAll(lib, IdOf);
      if ids.Failure? {
        return Failure(ids.error);
      }
      keys := ids.value;
      DistinctIffSetSize(keys);
      if |KeySet(keys)| != |keys| {
        return Failure(NotUnique);
      }
      r := ProcessBibTables();
    }

    /** The table-building half of `ProcessBibData`, once the keys are known. */
    method ProcessBibTables() returns (r: Result<Missing, Fault>)
      requires KeysReady()
      modifies this`author, this`title, this`date, this`publication, this`keywords, this`abstracts
      ensures ErrorOf(r) == TableFault(lib)
      ensures r.Success? ==> Processed()
      ensures r.Success? ==> r.value == Missing(CountWhere(lib, NoYear), CountWhere(lib, NoPublication),
                                                CountWhere(lib, NoKeywords), CountWhere(lib, NoAbstract))
    {
      var n := ProcessBibNames();
      if n.Failure? {
        return Failure(n.error);
      }
      r := ProcessBibCounts();
    }

    /** The tables of names: authors, then titles. */
    method ProcessBibNames() returns (r: Result<(), Fault>)
      requires KeysReady()
      modifies this`author, this`title
      ensures ErrorOf(r) == OrElse(ErrorOf(MapAll(lib, AuthorOf)), ErrorOf(MapAll(lib, TitleOf)))
      ensures r.Success? ==> NamesReady()
    {
      var a := ProcessBibAuthors();
      if a.Failure? {
        return Failure(a.error);
      }
      r := ProcessBibTitles();
    }

    /** The tables whose missing rows are counted: dates, publications,
        keywords and abstracts, in that order. */
    method ProcessBibCounts() returns (r: Result<Missing, Fault>)
      requires KeysReady()
      modifies this`date, this`publication, this`keywords, this`abstracts
      ensures ErrorOf(r) == CountFault(lib)
      ensures r.Success? ==> CountsReady()
      ensures r.Success? ==> r.value == Missing(CountWhere(lib, NoYear), CountWhere(lib, NoPublication),
                                                CountWhere(lib, NoKeywords), CountWhere(lib, NoAbstract))
    {
      var d := ProcessBibDates();
      if d.Failure? {
        return Failure(d.error);
      }
      var p := ProcessBibPubnames();
      if p.Failure? {
        return Failure(p.error);
      }
      var k := ProcessBibKeywords();
      var ab := ProcessBibAbstracts();
      r := Success(Missing(d.value, p.value, k, ab));
    }

    /** Every key of `keys` is a key of every table. */
    ghost predicate Keyed(k: string)
      reads this`author, this`title, this`date, this`publication, this`keywords, this`abstracts
    {
      k in date && k in author && k in title && k in publication && k in keywords && k in abstracts
    }

    /** Every citation key has a row in every table. */
    ghost predicate TablesCoverKeys()
      reads this`keys, this`author, this`title, this`date, this`publication, this`keywords, this`abstracts
    {
      forall k :: k in KeySet(keys) ==> Keyed(k)
    }

    /** Processing leaves a row for every key in every table. */
    lemma ProcessedCoversKeys()
      requires Processed()
      ensures TablesCoverKeys()
    {
      RowsAreKeys(author, AuthorOf);
      RowsAreKeys(title, TitleOf);
      RowsAreKeys(date, DateOf);
      RowsAreKeys(publication, PublicationOf);
      RowsAreKeys(keywords, KeywordsOf);
      RowsAreKeys(abstracts, AbstractOf);
    }

    /** The description of key `k`, from its row of every table. */
    ghost function DescriptionOf(k: string): string
      requires Keyed(k)
      reads this`author, this`title, this`date, this`publication, this`keywords, this`abstracts
    {
      Describe(date[k], author[k], title[k], publication[k], keywords[k], abstracts[k])
    }

    /** One description per key, from that key's tables. */
    method GenerateDescriptions()
      requires TablesCoverKeys()
      modifies this`description
      ensures description.Keys == KeySet(keys)
      ensures forall k :: k in description ==> Keyed(k) && description[k] == DescriptionOf(k)
    {
      description := map[];
      for i := 0 to |keys|
        invariant description.Keys == KeySet(keys[..i])
        invariant forall k :: k in description ==> Keyed(k) && description[k] == DescriptionOf(k)
      {
        var key := keys[i];
        assert key in KeySet(keys);
        var desc := Describe(date[key], author[key], title[key], publication[key], keywords[key], abstracts[key]);
        assert keys[..i + 1] == keys[..i] + [key];
        description := description[key := desc];
      }
      assert keys[..|keys|] == keys;
    }
  }
}
