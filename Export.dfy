/** MibTeX's `Export`, the base of all exporters: the entry table built from the BibTeX
    database (first entry per key wins, citation counts merged in), the sorted index lists
    of authors, titles, years, venues and tags, `countEntries`, and `renameFiles`, which
    proposes renamings of stray PDF files to the names of entries whose file is missing.
    The static collections of the Java class are the fields of the class `Export`. */
module Export {
  import opened JavaStrings
  import opened Sorting
  import opened Lists
  import B = BibtexEntry
  import CitationEntry

  /* ================================================================ entries */

  /** The attributes of a BibtexEntry that the exporters read and update. */
  datatype Entry = Entry(
    typeName: string,
    key: string,
    authorList: seq<string>,
    title: string,
    venue: string,
    year: int,
    tagList: B.TagList,
    citations: int,
    lastUpdate: int)

  /** The entry `new BibtexEntry(raw)` builds: every attribute as its parse method
      computes it from the initial value (see the constructor of B.BibtexEntry). */
  function Parse(raw: B.RawEntry, tagKeys: seq<string>): Entry {
    Entry(
      raw.typeName,
      B.ParsedKey(B.UNKNOWN_ATTRIBUTE, raw),
      B.ParsedAuthors(B.UNKNOWN_ATTRIBUTE, false, [], raw).1,
      B.ParsedTitle(B.UNKNOWN_ATTRIBUTE, raw),
      B.ParsedVenue(B.UNKNOWN_ATTRIBUTE, raw),
      B.YearOf(0, B.Field(raw, B.KEY_YEAR)),
      B.ParsedTags([], [], raw, tagKeys).1,
      CitationEntry.NOT_IN_CITATION_SERVICE,
      0)
  }

  /** `new BibtexEntry(raw)`, as the attributes the exporters read. */
  method NewEntry(raw: B.RawEntry, tagKeys: seq<string>) returns (e: Entry)
    ensures e == Parse(raw, tagKeys)
  {
    var bibtexEntry := new B.BibtexEntry(raw, tagKeys);
    e := Entry(bibtexEntry.typeName, bibtexEntry.key, bibtexEntry.authorList, bibtexEntry.title,
      bibtexEntry.venue, bibtexEntry.year, bibtexEntry.tagList, bibtexEntry.citations, bibtexEntry.lastUpdate);
  }

  /** An object of the jbibtex database: an entry, or something else (a string
      definition, a preamble, a comment), which extractEntries skips. */
  datatype BibObject = EntryObject(raw: B.RawEntry) | OtherObject

  /** The entries of the database in order, duplicates included. */
  function ParsedEntries(db: seq<BibObject>, tagKeys: seq<string>): seq<Entry>
    decreases |db|
  {
    if db == [] then []
    else
      var es := ParsedEntries(db[..|db| - 1], tagKeys);
      match db[|db| - 1]
      case EntryObject(raw) => es + [Parse(raw, tagKeys)]
      case OtherObject => es
  }

  /** One more database object: an entry object adds its parsed entry at the end. */
  lemma {:induction false} ParsedEntriesSnoc(db: seq<BibObject>, o: BibObject, tagKeys: seq<string>)
    ensures ParsedEntries(db + [o], tagKeys) ==
      match o
      case EntryObject(raw) => ParsedEntries(db, tagKeys) + [Parse(raw, tagKeys)]
      case OtherObject => ParsedEntries(db, tagKeys)
  {
    assert (db + [o])[..|db|] == db;
  }

  function KeysOf(es: seq<Entry>): (ks: seq<string>)
    ensures |ks| == |es| && forall i :: 0 <= i < |es| ==> ks[i] == es[i].key
  {
    seq(|es|, i requires 0 <= i < |es| => es[i].key)
  }

  /** The LinkedHashMap of extractEntries, as its list of values: an entry is put only
      if no entry with its key is there yet. */
  function Dedup(es: seq<Entry>): seq<Entry>
    decreases |es|
  {
    if es == [] then []
    else
      var r := Dedup(es[..|es| - 1]);
      var e := es[|es| - 1];
      if e.key in KeysOf(r) then r else r + [e]
  }

  /** One more entry: it is put iff its key is not in the table yet. */
  lemma {:induction false} DedupSnoc(es: seq<Entry>, e: Entry)
    ensures Dedup(es + [e]) == if e.key in KeysOf(Dedup(es)) then Dedup(es) else Dedup(es) + [e]
  {
    assert (es + [e])[..|es|] == es;
  }

  /** No entry in `es` before index `i` has the key of `es[i]`. */
  predicate FirstOfKey(es: seq<Entry>, i: int) {
    0 <= i < |es| && forall j :: 0 <= j < i ==> es[j].key != es[i].key
  }

  /** The table has one entry per key, and exactly the keys of the database. */
  lemma {:induction false} DedupKeys(es: seq<Entry>)
    ensures Distinct(KeysOf(Dedup(es)))
    ensures forall k :: k in KeysOf(Dedup(es)) <==> k in KeysOf(es)
    decreases |es|
  {
    if es != [] {
      var init := es[..|es| - 1];
      DedupKeys(init);
      forall k ensures k in KeysOf(es) <==> k in KeysOf(init) || k == es[|es| - 1].key {
        if k in KeysOf(es) {
          var i :| 0 <= i < |es| && KeysOf(es)[i] == k;
          if i < |es| - 1 {
            assert KeysOf(init)[i] == k;
          }
        }
        if k in KeysOf(init) {
          var i :| 0 <= i < |init| && KeysOf(init)[i] == k;
          assert KeysOf(es)[i] == k;
        }
        assert KeysOf(es)[|es| - 1] == es[|es| - 1].key;
      }
      var r := Dedup(init);
      if es[|es| - 1].key !in KeysOf(r) {
        assert KeysOf(r + [es[|es| - 1]]) == KeysOf(r) + [es[|es| - 1].key];
      }
    }
  }

  /** The kept entries keep their database order. */
  lemma {:induction false} DedupOrder(es: seq<Entry>)
    ensures SubsequenceOf(Dedup(es), es)
    decreases |es|
  {
    if es != [] {
      var init := es[..|es| - 1];
      DedupOrder(init);
      assert es == init + [es[|es| - 1]];
      SubsequenceSnoc(Dedup(init), init, es[|es| - 1]);
    }
  }

  /** The first entry per key wins: an entry is kept iff it is the first of its key in
      the database. */
  lemma {:induction false} DedupFirstWins(es: seq<Entry>)
    ensures forall e :: e in Dedup(es) <==> exists i :: FirstOfKey(es, i) && es[i] == e
    decreases |es|
  {
    if es != [] {
      var init := es[..|es| - 1];
      var last := es[|es| - 1];
      var r := Dedup(init);
      DedupFirstWins(init);
      DedupKeys(init);
      assert forall i :: 0 <= i < |init| ==> (FirstOfKey(es, i) <==> FirstOfKey(init, i));
      assert FirstOfKey(es, |es| - 1) <==> last.key !in KeysOf(init);
      forall e ensures e in Dedup(es) <==> exists i :: FirstOfKey(es, i) && es[i] == e {
        if e in Dedup(es) {
          if e in r {
            var i :| FirstOfKey(init, i) && init[i] == e;
            assert FirstOfKey(es, i) && es[i] == e;
          } else {
            assert FirstOfKey(es, |es| - 1) && es[|es| - 1] == e;
          }
        }
        if i :| FirstOfKey(es, i) && es[i] == e {
          if i < |es| - 1 {
            assert FirstOfKey(init, i) && init[i] == e;
          } else {
            assert last.key !in KeysOf(r);
          }
        }
      }
    }
  }

  /* ================================================================ citations */

  /** The last record of `cs` for `key`, the one whose values the merge leaves. */
  function LastRecord(cs: seq<CitationEntry.Citation>, key: string): Option<CitationEntry.Citation>
    decreases |cs|
  {
    if cs == [] then None
    else if cs[|cs| - 1].key == key then Some(cs[|cs| - 1])
    else LastRecord(cs[..|cs| - 1], key)
  }

  /** One step of the merge loop of readCitations: the entry with the record's key, if
      there is one, takes the record's citations and lastUpdate. */
  function MergeRecord(es: seq<Entry>, c: CitationEntry.Citation): (r: seq<Entry>)
    ensures |r| == |es|
  {
    seq(|es|, i requires 0 <= i < |es| =>
      if es[i].key == c.key then es[i].(citations := c.citations, lastUpdate := c.lastUpdate)
      else es[i])
  }

  /** The whole merge loop, record by record. */
  function MergeAll(es: seq<Entry>, cs: seq<CitationEntry.Citation>): (r: seq<Entry>)
    ensures |r| == |es|
    decreases |cs|
  {
    if cs == [] then es else MergeRecord(MergeAll(es, cs[..|cs| - 1]), cs[|cs| - 1])
  }

  /** readCitations: without a citations file nothing changes. */
  function ReadCitations(es: seq<Entry>, records: Option<seq<CitationEntry.Citation>>): seq<Entry> {
    match records
    case None => es
    case Some(cs) => MergeAll(es, cs)
  }

  /** After the merge, an entry whose key has records carries the values of the last
      such record; every other entry is unchanged, and so are all other attributes. */
  lemma {:induction false} MergeAllSpec(es: seq<Entry>, cs: seq<CitationEntry.Citation>, i: int)
    requires 0 <= i < |es|
    ensures match LastRecord(cs, es[i].key)
      case None => MergeAll(es, cs)[i] == es[i]
      case Some(c) => MergeAll(es, cs)[i] == es[i].(citations := c.citations, lastUpdate := c.lastUpdate)
    decreases |cs|
  {
    if cs != [] {
      MergeAllSpec(es, cs[..|cs| - 1], i);
    }
  }

  /** The merge leaves the keys, and so the order and the uniqueness of keys, alone. */
  lemma {:induction false} MergeAllKeys(es: seq<Entry>, cs: seq<CitationEntry.Citation>)
    ensures KeysOf(MergeAll(es, cs)) == KeysOf(es)
    decreases |cs|
  {
    if cs != [] {
      MergeAllKeys(es, cs[..|cs| - 1]);
    }
  }

  /** The index of the entry with `key` (LinkedHashMap.get), or -1. */
  function KeyIndex(es: seq<Entry>, key: string): (i: int)
    ensures -1 <= i < |es|
    ensures i >= 0 ==> es[i].key == key
    ensures i < 0 ==> key !in KeysOf(es)
    decreases |es|
  {
    if es == [] then -1
    else if es[|es| - 1].key == key then |es| - 1
    else
      var i := KeyIndex(es[..|es| - 1], key);
      assert i < 0 ==> forall j :: 0 <= j < |es| ==> es[j].key != key by {
        if i < 0 {
          forall j | 0 <= j < |es| ensures es[j].key != key {
            if j < |es| - 1 {
              assert KeysOf(es[..|es| - 1])[j] == es[j].key;
            }
          }
        }
      }
      i
  }

  /** With one entry per key, updating the entry found by KeyIndex is MergeRecord. */
  lemma {:induction false} MergeRecordAt(es: seq<Entry>, c: CitationEntry.Citation)
    requires Distinct(KeysOf(es))
    ensures var i := KeyIndex(es, c.key);
      MergeRecord(es, c) == if i < 0 then es else es[i := es[i].(citations := c.citations, lastUpdate := c.lastUpdate)]
  {
    var i := KeyIndex(es, c.key);
    if i >= 0 {
      forall j | 0 <= j < |es| && j != i ensures es[j].key != c.key {
        assert KeysOf(es)[j] != KeysOf(es)[i];
      }
    } else {
      forall j | 0 <= j < |es| ensures es[j].key != c.key {
        assert KeysOf(es)[j] in KeysOf(es);
      }
    }
  }

  /** The table extractEntries leaves: the first entry per key, in database order, with
      the citation records merged in. */
  function Entries(db: seq<BibObject>, tagKeys: seq<string>, records: Option<seq<CitationEntry.Citation>>): seq<Entry> {
    ReadCitations(Dedup(ParsedEntries(db, tagKeys)), records)
  }

  /* ================================================================ index lists */

  /** The authors of all entries, entry by entry, duplicates included. */
  function AuthorsOf(es: seq<Entry>): seq<string>
    decreases |es|
  {
    if es == [] then [] else AuthorsOf(es[..|es| - 1]) + es[|es| - 1].authorList
  }

  function TitlesOf(es: seq<Entry>): (ts: seq<string>)
    ensures |ts| == |es| && forall i :: 0 <= i < |es| ==> ts[i] == es[i].title
    decreases |es|
  {
    if es == [] then [] else TitlesOf(es[..|es| - 1]) + [es[|es| - 1].title]
  }

  function YearsOf(es: seq<Entry>): (ys: seq<int>)
    ensures |ys| == |es| && forall i :: 0 <= i < |es| ==> ys[i] == es[i].year
    decreases |es|
  {
    if es == [] then [] else YearsOf(es[..|es| - 1]) + [es[|es| - 1].year]
  }

  function VenuesOf(es: seq<Entry>): (vs: seq<string>)
    ensures |vs| == |es| && forall i :: 0 <= i < |es| ==> vs[i] == es[i].venue
    decreases |es|
  {
    if es == [] then [] else VenuesOf(es[..|es| - 1]) + [es[|es| - 1].venue]
  }

  /** The tags of one entry: its tag lists in key order, each in its own order. */
  function TagValues(m: B.TagList): seq<string>
    decreases |m|
  {
    if m == [] then [] else TagValues(m[..|m| - 1]) + m[|m| - 1].1
  }

  /** The tags of all entries, entry by entry, duplicates included. */
  function TagsOf(es: seq<Entry>): seq<string>
    decreases |es|
  {
    if es == [] then [] else TagsOf(es[..|es| - 1]) + TagValues(es[|es| - 1].tagList)
  }

  /** The loop over the tag lists of one entry in readTags. */
  method AddTagLists(tags: seq<string>, tagList: B.TagList) returns (r: seq<string>)
    ensures r == AddAll(tags, TagValues(tagList))
  {
    r := tags;
    var k := 0;
    while k < |tagList|
      invariant 0 <= k <= |tagList|
      invariant r == AddAll(tags, TagValues(tagList[..k]))
    {
      assert tagList[..k + 1][..k] == tagList[..k];
      AddAllAppend(tags, TagValues(tagList[..k]), tagList[k].1);
      r := AddAbsent(r, tagList[k].1);
      k := k + 1;
    }
    assert tagList[..|tagList|] == tagList;
  }

  /** The venue renamings of readVenues. */
  function RenamedVenue(v: string): string {
    if v == "GPCE13" then "GPCE" else if v == "VAMOS20" then "VAMOS" else v
  }

  /** readVenues renames the venues inside the entries themselves; nothing else changes. */
  function RenameVenues(es: seq<Entry>): (r: seq<Entry>)
    ensures |r| == |es|
    decreases |es|
  {
    if es == [] then []
    else RenameVenues(es[..|es| - 1]) + [es[|es| - 1].(venue := RenamedVenue(es[|es| - 1].venue))]
  }

  /** One step of the loop of readVenues: the entry at `i` is renamed in place and its
      venue collected. */
  lemma {:induction false} RenameStep(es: seq<Entry>, i: int)
    requires 0 <= i < |es|
    ensures var e := es[i].(venue := RenamedVenue(es[i].venue));
      && RenameVenues(es[..i + 1]) == RenameVenues(es[..i]) + [e]
      && VenuesOf(RenameVenues(es[..i + 1])) == VenuesOf(RenameVenues(es[..i])) + [e.venue]
      && (RenameVenues(es[..i]) + es[i..])[i := e] == RenameVenues(es[..i + 1]) + es[i + 1..]
  {
    assert es[..i + 1][..i] == es[..i];
    var e := es[i].(venue := RenamedVenue(es[i].venue));
    var r := RenameVenues(es[..i]);
    assert RenameVenues(es[..i + 1]) == r + [e];
    assert (r + [e])[..i] == r;
  }

  /** Each entry keeps its place and all its attributes but the venue. */
  lemma {:induction false} RenameVenuesAt(es: seq<Entry>, i: int)
    requires 0 <= i < |es|
    ensures RenameVenues(es)[i] == es[i].(venue := RenamedVenue(es[i].venue))
    decreases |es|
  {
    if i < |es| - 1 {
      RenameVenuesAt(es[..|es| - 1], i);
    }
  }

  /** Renaming venues changes no author, title or year. */
  lemma {:induction false} RenameVenuesKeeps(es: seq<Entry>)
    ensures AuthorsOf(RenameVenues(es)) == AuthorsOf(es)
    ensures TitlesOf(RenameVenues(es)) == TitlesOf(es)
    ensures YearsOf(RenameVenues(es)) == YearsOf(es)
    decreases |es|
  {
    if es != [] {
      var init := es[..|es| - 1];
      RenameVenuesKeeps(init);
      assert RenameVenues(es)[..|es| - 1] == RenameVenues(init);
    }
  }

  /** A value is an author exactly when it is in the author list of some entry. */
  lemma {:induction false} AuthorsOfElems(es: seq<Entry>, a: string)
    ensures a in AuthorsOf(es) <==> exists i :: 0 <= i < |es| && a in es[i].authorList
    decreases |es|
  {
    if es != [] {
      var init := es[..|es| - 1];
      AuthorsOfElems(init, a);
      if exists i :: 0 <= i < |es| && a in es[i].authorList {
        var i :| 0 <= i < |es| && a in es[i].authorList;
        if i < |es| - 1 {
          assert a in init[i].authorList;
        }
      }
      if exists i :: 0 <= i < |init| && a in init[i].authorList {
        var i :| 0 <= i < |init| && a in init[i].authorList;
        assert a in es[i].authorList;
      }
    }
  }

  /** A text is a tag of a tag list exactly when it is in one of its lists. */
  lemma {:induction false} TagValuesElems(m: B.TagList, t: string)
    ensures t in TagValues(m) <==> exists k :: 0 <= k < |m| && t in m[k].1
    decreases |m|
  {
    if m != [] {
      var init := m[..|m| - 1];
      TagValuesElems(init, t);
      if exists k :: 0 <= k < |m| && t in m[k].1 {
        var k :| 0 <= k < |m| && t in m[k].1;
        if k < |m| - 1 {
          assert t in init[k].1;
        }
      }
      if exists k :: 0 <= k < |init| && t in init[k].1 {
        var k :| 0 <= k < |init| && t in init[k].1;
        assert t in m[k].1;
      }
    }
  }

  /** A text is a tag exactly when it is in some tag list of some entry. */
  lemma {:induction false} TagsOfElems(es: seq<Entry>, t: string)
    ensures t in TagsOf(es) <==> exists i :: 0 <= i < |es| && t in TagValues(es[i].tagList)
    decreases |es|
  {
    if es != [] {
      var init := es[..|es| - 1];
      TagsOfElems(init, t);
      if exists i :: 0 <= i < |es| && t in TagValues(es[i].tagList) {
        var i :| 0 <= i < |es| && t in TagValues(es[i].tagList);
        if i < |es| - 1 {
          assert t in TagValues(init[i].tagList);
        }
      }
      if exists i :: 0 <= i < |init| && t in TagValues(init[i].tagList) {
        var i :| 0 <= i < |init| && t in TagValues(init[i].tagList);
        assert t in TagValues(es[i].tagList);
      }
    }
  }

  /** `Collections.sort` of a string list. */
  function SortedStrings(xs: seq<string>): seq<string> {
    Sort(StringLe, xs)
  }

  /** A string index list: the strings collected without duplicates, then sorted. */
  function StringIndex(xs: seq<string>): seq<string> {
    IndexList(StringLe, xs)
  }

  /** An Integer index list: the numbers collected without duplicates, then sorted. */
  function IntIndex(xs: seq<int>): seq<int> {
    IndexList(IntLe, xs)
  }

  /** The author index: sorted, without duplicates, exactly the authors of the entries. */
  lemma {:induction false} AuthorIndex(es: seq<Entry>)
    ensures SortedBy(StringLe, StringIndex(AuthorsOf(es))) && Distinct(StringIndex(AuthorsOf(es)))
    ensures forall a :: a in StringIndex(AuthorsOf(es)) <==> exists i :: 0 <= i < |es| && a in es[i].authorList
  {
    StringLeTotal();
    IndexListSpec(StringLe, AuthorsOf(es));
    forall a ensures a in AuthorsOf(es) <==> exists i :: 0 <= i < |es| && a in es[i].authorList {
      AuthorsOfElems(es, a);
    }
  }

  /** The title index: sorted, and every title as often as it occurs in the entries. */
  lemma {:induction false} TitleIndex(es: seq<Entry>)
    ensures SortedBy(StringLe, SortedStrings(TitlesOf(es)))
    ensures multiset(SortedStrings(TitlesOf(es))) == multiset(TitlesOf(es))
    ensures |SortedStrings(TitlesOf(es))| == |es|
  {
    var ts := SortedStrings(TitlesOf(es));
    StringLeTotal();
    SortSpec(StringLe, TitlesOf(es));
    assert |multiset(ts)| == |multiset(TitlesOf(es))|;
  }

  /** The year index: sorted, without duplicates, exactly the years of the entries. */
  lemma {:induction false} YearIndex(es: seq<Entry>)
    ensures SortedBy(IntLe, IntIndex(YearsOf(es))) && Distinct(IntIndex(YearsOf(es)))
    ensures forall y :: y in IntIndex(YearsOf(es)) <==> exists i :: 0 <= i < |es| && es[i].year == y
  {
    IntLeTotal();
    IndexListSpec(IntLe, YearsOf(es));
    forall y ensures y in YearsOf(es) <==> exists i :: 0 <= i < |es| && es[i].year == y {
      if y in YearsOf(es) {
        var i :| 0 <= i < |es| && YearsOf(es)[i] == y;
      }
    }
  }

  /** The venue index: sorted, without duplicates, exactly the renamed venues of the
      entries; "GPCE13" and "VAMOS20" never appear. */
  lemma {:induction false} VenueIndex(es: seq<Entry>)
    ensures SortedBy(StringLe, StringIndex(VenuesOf(RenameVenues(es)))) && Distinct(StringIndex(VenuesOf(RenameVenues(es))))
    ensures forall v :: v in StringIndex(VenuesOf(RenameVenues(es))) <==> exists i :: 0 <= i < |es| && RenamedVenue(es[i].venue) == v
    ensures "GPCE13" !in StringIndex(VenuesOf(RenameVenues(es))) && "VAMOS20" !in StringIndex(VenuesOf(RenameVenues(es)))
  {
    StringLeTotal();
    var vs := VenuesOf(RenameVenues(es));
    IndexListSpec(StringLe, vs);
    forall v ensures v in vs <==> exists i :: 0 <= i < |es| && RenamedVenue(es[i].venue) == v {
      RenamedVenues(es, v);
    }
    OldVenuesGone(es);
  }

  /** The venues after renaming are the renamed venues of the entries. */
  lemma {:induction false} RenamedVenues(es: seq<Entry>, v: string)
    ensures v in VenuesOf(RenameVenues(es)) <==> exists i :: 0 <= i < |es| && RenamedVenue(es[i].venue) == v
  {
    var vs := VenuesOf(RenameVenues(es));
    if v in vs {
      var i :| 0 <= i < |vs| && vs[i] == v;
      RenameVenuesAt(es, i);
    }
    if exists i :: 0 <= i < |es| && RenamedVenue(es[i].venue) == v {
      var i :| 0 <= i < |es| && RenamedVenue(es[i].venue) == v;
      RenameVenuesAt(es, i);
      assert vs[i] == v;
    }
  }

  /** No venue is "GPCE13" or "VAMOS20" after renaming. */
  lemma {:induction false} OldVenuesGone(es: seq<Entry>)
    ensures "GPCE13" !in VenuesOf(RenameVenues(es)) && "VAMOS20" !in VenuesOf(RenameVenues(es))
  {
    RenamedVenues(es, "GPCE13");
    RenamedVenues(es, "VAMOS20");
  }

  /** The tag index: sorted, without duplicates, exactly the tags in the tag lists of the
      entries. */
  lemma {:induction false} TagIndex(es: seq<Entry>)
    ensures SortedBy(StringLe, StringIndex(TagsOf(es))) && Distinct(StringIndex(TagsOf(es)))
    ensures forall t :: t in StringIndex(TagsOf(es)) <==>
      exists i, k :: 0 <= i < |es| && 0 <= k < |es[i].tagList| && t in es[i].tagList[k].1
  {
    StringLeTotal();
    IndexListSpec(StringLe, TagsOf(es));
    forall t ensures t in TagsOf(es) <==>
      exists i, k :: 0 <= i < |es| && 0 <= k < |es[i].tagList| && t in es[i].tagList[k].1
    {
      TagsOfElems(es, t);
      if exists i :: 0 <= i < |es| && t in TagValues(es[i].tagList) {
        var i :| 0 <= i < |es| && t in TagValues(es[i].tagList);
        TagValuesElems(es[i].tagList, t);
      }
      if exists i, k :: 0 <= i < |es| && 0 <= k < |es[i].tagList| && t in es[i].tagList[k].1 {
        var i, k :| 0 <= i < |es| && 0 <= k < |es[i].tagList| && t in es[i].tagList[k].1;
        TagValuesElems(es[i].tagList, t);
      }
    }
  }

  /* ================================================================ countEntries */

  /** The number of entries the filter includes. */
  function CountWhere(es: seq<Entry>, includes: Entry -> bool): nat
    decreases |es|
  {
    if es == [] then 0
    else CountWhere(es[..|es| - 1], includes) + (if includes(es[|es| - 1]) then 1 else 0)
  }

  /** Every entry is counted by a filter or by its complement, never by both. */
  lemma {:induction false} CountPartition(es: seq<Entry>, includes: Entry -> bool)
    ensures CountWhere(es, includes) + CountWhere(es, e => !includes(e)) == |es|
    decreases |es|
  {
    if es != [] {
      CountPartition(es[..|es| - 1], includes);
    }
  }

  /** A filter that includes every entry counts them all; one that includes none
      counts nothing. */
  lemma {:induction false} CountExtremes(es: seq<Entry>, includes: Entry -> bool)
    ensures (forall i :: 0 <= i < |es| ==> includes(es[i])) ==> CountWhere(es, includes) == |es|
    ensures (forall i :: 0 <= i < |es| ==> !includes(es[i])) ==> CountWhere(es, includes) == 0
    decreases |es|
  {
    if es != [] {
      CountExtremes(es[..|es| - 1], includes);
    }
  }

  /* ================================================================ the exporter state */

  /** The static collections of Export. */
  class Export {
    var entries: seq<Entry>
    var authors: seq<string>
    var titles: seq<string>
    var years: seq<int>
    var venues: seq<string>
    var tags: seq<string>

    /** The constructor, once the database is parsed: the entry table, then the index
        lists. `records` is the content of `citations.csv`, None without that file. */
    constructor (db: seq<BibObject>, tagKeys: seq<string>, records: Option<seq<CitationEntry.Citation>>)
      ensures entries == RenameVenues(Entries(db, tagKeys, records))
      ensures authors == StringIndex(AuthorsOf(entries))
      ensures titles == SortedStrings(TitlesOf(entries))
      ensures years == IntIndex(YearsOf(entries))
      ensures venues == StringIndex(VenuesOf(entries))
      ensures tags == StringIndex(TagsOf(entries))
    {
      new;
      ExtractEntries(db, tagKeys, records);
      ReadIndexLists();
    }

    /** The second half of the constructor: the index lists, in the order the
        constructor builds them. Only readVenues changes the entries. */
    method ReadIndexLists()
      modifies this
      ensures entries == RenameVenues(old(entries))
      ensures authors == StringIndex(AuthorsOf(entries))
      ensures titles == SortedStrings(TitlesOf(entries))
      ensures years == IntIndex(YearsOf(entries))
      ensures venues == StringIndex(VenuesOf(entries))
      ensures tags == StringIndex(TagsOf(entries))
    {
      ReadAuthors();
      ReadTitles();
      ReadYears();
      ghost var parsed := entries;
      ReadVenues();
      RenameVenuesKeeps(parsed);
      ReadTags();
    }

    /** extractEntries: every database entry parsed in order, the first per key kept,
        then readCitations. */
    method ExtractEntries(db: seq<BibObject>, tagKeys: seq<string>, records: Option<seq<CitationEntry.Citation>>)
      modifies this`entries
      ensures entries == Entries(db, tagKeys, records)
    {
      entries := [];
      var i := 0;
      while i < |db|
        invariant 0 <= i <= |db|
        invariant entries == Dedup(ParsedEntries(db[..i], tagKeys))
      {
        assert db[..i + 1] == db[..i] + [db[i]];
        ParsedEntriesSnoc(db[..i], db[i], tagKeys);
        match db[i] {
          case EntryObject(raw) =>
            var e := NewEntry(raw, tagKeys);
            DedupSnoc(ParsedEntries(db[..i], tagKeys), e);
            if e.key !in KeysOf(entries) {
              entries := entries + [e];
            }
          case OtherObject =>
        }
        i := i + 1;
      }
      assert db[..|db|] == db;
      DedupKeys(ParsedEntries(db, tagKeys));
      ReadCitationsInto(records);
    }

    /** The merge loop of readCitations: each record updates the entry with its key. */
    method ReadCitationsInto(records: Option<seq<CitationEntry.Citation>>)
      requires Distinct(KeysOf(entries))
      modifies this`entries
      ensures entries == ReadCitations(old(entries), records)
    {
      if records.Some? {
        var cs := records.value;
        var i := 0;
        while i < |cs|
          invariant 0 <= i <= |cs|
          invariant entries == MergeAll(old(entries), cs[..i])
        {
          assert cs[..i + 1][..i] == cs[..i];
          assert MergeAll(old(entries), cs[..i + 1]) == MergeRecord(entries, cs[i]);
          MergeAllKeys(old(entries), cs[..i]);
          MergeRecordAt(entries, cs[i]);
          var j := KeyIndex(entries, cs[i].key);
          if j >= 0 {
            entries := entries[j := entries[j].(citations := cs[i].citations, lastUpdate := cs[i].lastUpdate)];
          }
          i := i + 1;
        }
        assert cs[..|cs|] == cs;
      }
    }

    /** readAuthors. */
    method ReadAuthors()
      modifies this`authors
      ensures authors == StringIndex(AuthorsOf(entries))
    {
      authors := [];
      var i := 0;
      while i < |entries|
        invariant 0 <= i <= |entries|
        invariant authors == AddAll([], AuthorsOf(entries[..i]))
      {
        assert entries[..i + 1][..i] == entries[..i];
        AddAllAppend([], AuthorsOf(entries[..i]), entries[i].authorList);
        authors := AddAbsent(authors, entries[i].authorList);
        i := i + 1;
      }
      assert entries[..|entries|] == entries;
      authors := Sort(StringLe, authors);
    }

    /** readTitles: every title, duplicates kept. */
    method ReadTitles()
      modifies this`titles
      ensures titles == SortedStrings(TitlesOf(entries))
    {
      titles := [];
      var i := 0;
      while i < |entries|
        invariant 0 <= i <= |entries|
        invariant titles == TitlesOf(entries[..i])
      {
        titles := titles + [entries[i].title];
        i := i + 1;
      }
      assert entries[..|entries|] == entries;
      titles := Sort(StringLe, titles);
    }

    /** readYears. */
    method ReadYears()
      modifies this`years
      ensures years == IntIndex(YearsOf(entries))
    {
      years := [];
      var i := 0;
      while i < |entries|
        invariant 0 <= i <= |entries|
        invariant years == AddAll([], YearsOf(entries[..i]))
      {
        assert entries[..i + 1][..i] == entries[..i];
        assert YearsOf(entries[..i + 1]) == YearsOf(entries[..i]) + [entries[i].year];
        AddAllSnoc([], YearsOf(entries[..i]), entries[i].year);
        if entries[i].year !in years {
          years := years + [entries[i].year];
        }
        i := i + 1;
      }
      assert entries[..|entries|] == entries;
      years := Sort(IntLe, years);
    }

    /** readVenues: renames GPCE13 and VAMOS20 in the entries while collecting. */
    method ReadVenues()
      modifies this`entries, this`venues
      ensures entries == RenameVenues(old(entries))
      ensures venues == StringIndex(VenuesOf(entries))
    {
      var es := entries;
      venues := [];
      var i := 0;
      assert es[..0] == [] && es[0..] == es;
      while i < |es|
        invariant 0 <= i <= |es|
        invariant entries == RenameVenues(es[..i]) + es[i..]
        invariant venues == AddAll([], VenuesOf(RenameVenues(es[..i])))
      {
        var entry := entries[i];
        assert entry == es[i];
        if "GPCE13" == entry.venue {
          entry := entry.(venue := "GPCE");
        }
        if "VAMOS20" == entry.venue {
          entry := entry.(venue := "VAMOS");
        }
        assert entry.venue == RenamedVenue(es[i].venue);
        assert entry == es[i].(venue := RenamedVenue(es[i].venue));
        RenameStep(es, i);
        AddAllAppend([], VenuesOf(RenameVenues(es[..i])), [entry.venue]);
        entries := entries[i := entry];
        if entry.venue !in venues {
          venues := venues + [entry.venue];
        }
        i := i + 1;
      }
      assert es[..i] == es;
      assert entries == RenameVenues(es);
      venues := Sort(StringLe, venues);
    }

    /** readTags: the tags of every tag list of every entry. */
    method ReadTags()
      modifies this`tags
      ensures tags == StringIndex(TagsOf(entries))
    {
      tags := [];
      var i := 0;
      while i < |entries|
        invariant 0 <= i <= |entries|
        invariant tags == AddAll([], TagsOf(entries[..i]))
      {
        assert entries[..i + 1][..i] == entries[..i];
        AddAllAppend([], TagsOf(entries[..i]), TagValues(entries[i].tagList));
        tags := AddTagLists(tags, entries[i].tagList);
        i := i + 1;
      }
      assert entries[..|entries|] == entries;
      tags := Sort(StringLe, tags);
    }

    /** countEntries: the number of entries the filter includes. */
    method CountEntries(includes: Entry -> bool) returns (number: nat)
      ensures number == CountWhere(entries, includes)
    {
      number := 0;
      var i := 0;
      while i < |entries|
        invariant 0 <= i <= |entries|
        invariant number == CountWhere(entries[..i], includes)
      {
        assert entries[..i + 1][..i] == entries[..i];
        if includes(entries[i]) {
          number := number + 1;
        }
        i := i + 1;
      }
      assert entries[..|entries|] == entries;
    }

    /** The first loop of renameFiles over the entries, in the folder's listing. */
    method FindMissing(folder: string, comments: bool, present: string -> bool, listing: seq<string>)
      returns (missing: seq<Entry>, available: seq<string>)
      ensures Partition(missing, available) == Reconcile(entries, FileOf(folder, comments), present, listing)
    {
      missing := [];
      available := listing;
      var i := 0;
      while i < |entries|
        invariant 0 <= i <= |entries|
        invariant Partition(missing, available) == Reconcile(entries[..i], FileOf(folder, comments), present, listing)
      {
        ReconcilePrefix(entries, FileOf(folder, comments), present, listing, i);
        var entry := entries[i];
        var file := ExpectedFile(folder, comments, entry);
        if present(file) {
          available := RemoveFirst(available, file);
        } else if !Contains("misc book", entry.typeName) {
          missing := missing + [entry];
        }
        i := i + 1;
      }
      assert entries[..|entries|] == entries;
    }

    /** renameFiles, with the guard on a round that selects no pair: `folderExists`,
        `present` and `listing` stand for the file system, `answers` for the tokens on
        stdin, `renames` for `File.renameTo` and `dist` for the Levenshtein distance. */
    method RenameFiles(folderExists: bool, folder: string, comments: bool, present: string -> bool,
                       listing: seq<string>, dist: (string, string) -> nat, renames: (string, string) -> bool,
                       answers: seq<string>)
      returns (o: Outcome)
      ensures o == RenameOutcome(Session(FileOf(folder, comments), dist, renames, true),
                                 folderExists, entries, present, listing, answers)
    {
      if !folderExists {
        return Outcome(NoFolder, [], [], []);
      }
      ghost var env := Session(FileOf(folder, comments), dist, renames, true);
      var missing, available := FindMissing(folder, comments, present, listing);
      ghost var start := State(missing, available, answers, []);
      var rest := answers;
      var renamed := [];
      while available != []
        invariant Rounds(env, State(missing, available, rest, renamed)) == Rounds(env, start)
        decreases |missing|
      {
        ghost var st := State(missing, available, rest, renamed);
        var minDistance, choice := SelectPair(dist, FileOf(folder, comments), missing, available);
        SelectInRange(dist, FileOf(folder, comments), missing, available);
        if choice.None? {
          return Outcome(NoPair, missing, available, renamed);
        }
        var (m, a) := choice.value;
        var file := available[a];
        if TooDifferentNames(minDistance, file) {
          return Outcome(TooDifferent, missing, available, renamed);
        }
        if rest == [] {
          return Outcome(NoAnswer, missing, available, renamed);
        }
        RoundContinues(env, st, m, a);
        var newName := ExpectedFile(folder, comments, missing[m]);
        assert newName == env.fileOf(missing[m]);
        if rest[0] == "y" && renames(file, newName) {
          available := RemoveFirst(available, file);
          renamed := renamed + [(file, newName)];
        }
        missing := missing[..m] + missing[m + 1..];
        rest := rest[1..];
      }
      return Outcome(Exhausted, missing, available, renamed);
    }
  }

  /* ================================================================ renameFiles */

  /** `File.getName`: the part of a path after its last `/`. */
  function Name(path: string): string
    decreases |path|
  {
    if path == [] || path[|path| - 1] == '/' then []
    else Name(path[..|path| - 1]) + [path[|path| - 1]]
  }

  /** The name is what follows a `/` (or the start) that no later `/` follows. */
  lemma {:induction false} NameAfter(path: string, m: int)
    requires -1 <= m < |path| && (m >= 0 ==> path[m] == '/')
    requires forall i :: m < i < |path| ==> path[i] != '/'
    ensures Name(path) == path[m + 1..]
    decreases |path|
  {
    if path != [] && path[|path| - 1] != '/' {
      var init := path[..|path| - 1];
      NameAfter(init, m);
      DropSnoc(path, m + 1);
      assert Name(path) == Name(init) + [path[|path| - 1]];
    } else if path != [] {
      assert m == |path| - 1;
    }
  }

  /** `getName` is `path.substring(path.lastIndexOf('/') + 1)`: the name holds no `/`
      and ends the path. */
  lemma {:induction false} NameIsLastSegment(path: string)
    ensures var k := LastIndexOfFrom(path, "/", |path|);
      -1 <= k < |path| && Name(path) == path[k + 1..] && '/' !in Name(path)
  {
    var k := LastIndexOfFrom(path, "/", |path|);
    LastSlash(path);
    NameAfter(path, k);
    NotInSuffix(path, '/', k);
  }

  /** `lastIndexOf('/')` is a `/` with none after it, or -1. */
  lemma {:induction false} LastSlash(path: string)
    ensures var k := LastIndexOfFrom(path, "/", |path|);
      && -1 <= k < |path| && (k >= 0 ==> path[k] == '/')
      && (forall i :: k < i < |path| ==> path[i] != '/')
  {
    var k := LastIndexOfFrom(path, "/", |path|);
    OccursAtSingle(path, '/', k);
    forall i | k < i < |path| ensures path[i] != '/' {
      OccursAtSingle(path, '/', i);
    }
  }

  /** A char found at no index after `m` is not in the suffix after `m`. */
  lemma {:induction false} NotInSuffix(s: string, c: char, m: int)
    requires -1 <= m < |s| && forall i :: m < i < |s| ==> s[i] != c
    ensures c !in s[m + 1..]
  {
  }

  /** The file an entry should have in `folder`: getCommentsPath or getPDFPath. */
  function ExpectedFile(folder: string, comments: bool, e: Entry): string {
    B.Join(folder, if comments then B.CommentsFile(e.year, e.key) else B.PdfFile(e.year, e.key))
  }

  /** ExpectedFile for one folder, as the map the loops of renameFiles use. */
  function FileOf(folder: string, comments: bool): Entry -> string {
    e => ExpectedFile(folder, comments, e)
  }

  /** renameFiles expects no file for an entry whose type is a substring of "misc book". */
  predicate Ignored(e: Entry) {
    Contains("misc book", e.typeName)
  }

  /** The entries without a file, and the files no entry claims. */
  datatype Partition = Partition(missing: seq<Entry>, available: seq<string>)

  /** The first loop of renameFiles: an entry whose file exists takes that file off the
      list (its first equal path, if any); an entry without file that is not ignored is
      missing. */
  function Reconcile(es: seq<Entry>, fileOf: Entry -> string, present: string -> bool,
                     listing: seq<string>): Partition
    decreases |es|
  {
    if es == [] then Partition([], listing)
    else
      var p := Reconcile(es[..|es| - 1], fileOf, present, listing);
      var e := es[|es| - 1];
      var file := fileOf(e);
      if present(file) then p.(available := RemoveFirst(p.available, file))
      else if Ignored(e) then p
      else p.(missing := p.missing + [e])
  }

  /** One more entry of a prefix is one more reconciliation step. */
  lemma {:induction false} ReconcilePrefix(es: seq<Entry>, fileOf: Entry -> string, present: string -> bool,
                        listing: seq<string>, i: nat)
    requires i < |es|
    ensures var p := Reconcile(es[..i], fileOf, present, listing);
            var file := fileOf(es[i]);
            Reconcile(es[..i + 1], fileOf, present, listing) ==
              if present(file) then p.(available := RemoveFirst(p.available, file))
              else if Ignored(es[i]) then p
              else p.(missing := p.missing + [es[i]])
  {
    assert es[..i + 1][..i] == es[..i];
  }

  /** The files of entries whose file exists, in entry order. */
  function ExistingFiles(es: seq<Entry>, fileOf: Entry -> string, present: string -> bool): (r: seq<string>)
    ensures |r| <= |es|
    decreases |es|
  {
    if es == [] then []
    else
      var fs := ExistingFiles(es[..|es| - 1], fileOf, present);
      var file := fileOf(es[|es| - 1]);
      if present(file) then fs + [file] else fs
  }

  /** One entry's step of the first loop on the missing list. */
  lemma {:induction false} ReconcileStep(es: seq<Entry>, fileOf: Entry -> string,
                      present: string -> bool, listing: seq<string>)
    requires es != []
    ensures var e := es[|es| - 1];
      Reconcile(es, fileOf, present, listing).missing ==
        Reconcile(es[..|es| - 1], fileOf, present, listing).missing +
        (if !present(fileOf(e)) && !Ignored(e) then [e] else [])
  {
  }

  /** The missing entries keep their entry order. */
  lemma {:induction false} ReconcileOrder(es: seq<Entry>, fileOf: Entry -> string,
                                          present: string -> bool, listing: seq<string>)
    ensures SubsequenceOf(Reconcile(es, fileOf, present, listing).missing, es)
    decreases |es|
  {
    if es != [] {
      var init := es[..|es| - 1];
      var last := es[|es| - 1];
      ReconcileOrder(init, fileOf, present, listing);
      ReconcileStep(es, fileOf, present, listing);
      var m := Reconcile(init, fileOf, present, listing).missing;
      SubsequenceSnoc(m, init, last);
      Snoc(es);
    }
  }

  /** The missing entries are exactly the entries without file that are not ignored. */
  lemma {:induction false} ReconcileMissing(es: seq<Entry>, fileOf: Entry -> string,
                                            present: string -> bool, listing: seq<string>, e: Entry)
    ensures e in Reconcile(es, fileOf, present, listing).missing <==>
      e in es && !present(fileOf(e)) && !Ignored(e)
    decreases |es|
  {
    if es != [] {
      var init := es[..|es| - 1];
      var last := es[|es| - 1];
      ReconcileMissing(init, fileOf, present, listing, e);
      ReconcileStep(es, fileOf, present, listing);
      InInit(es, e);
      var m := Reconcile(init, fileOf, present, listing).missing;
      InSnoc(m, last, e);
    }
  }

  /** Every existing file is taken off the listing once: what remains available is the
      listing less those files. */
  lemma {:induction false} ReconcileAvailable(es: seq<Entry>, fileOf: Entry -> string,
                                              present: string -> bool, listing: seq<string>)
    ensures multiset(Reconcile(es, fileOf, present, listing).available) ==
      multiset(listing) - multiset(ExistingFiles(es, fileOf, present))
    decreases |es|
  {
    if es != [] {
      var init := es[..|es| - 1];
      ReconcileAvailable(init, fileOf, present, listing);
      var file := fileOf(es[|es| - 1]);
      if present(file) {
        var a := Reconcile(init, fileOf, present, listing).available;
        RemoveFirstMultiset(a, file);
        var fs := ExistingFiles(init, fileOf, present);
        assert multiset(fs + [file]) == multiset(fs) + multiset{file};
      }
    }
  }

  /** The types renameFiles ignores are the substrings of "misc book", not just the two
      type names. */
  lemma {:induction false} IgnoredTypes()
    ensures Contains("misc book", "misc") && Contains("misc book", "book")
    ensures Contains("misc book", "") && Contains("misc book", "c b")
    ensures !Contains("misc book", "article") && !Contains("misc book", "inproceedings")
  {
    assert OccursAt("misc book", "misc", 0);
    assert OccursAt("misc book", "book", 5);
    assert OccursAt("misc book", "c b", 3);
    forall i ensures !OccursAt("misc book", "article", i) {
      if 0 <= i <= 9 {
        StartsWithSlice("misc book"[i..], "article");
      }
    }
  }

  /* ---------------------------------------------------------------- the selection loop */

  /** The names of the available files. */
  function Names(available: seq<string>): (r: seq<string>)
    ensures |r| == |available|
    decreases |available|
  {
    if available == [] then []
    else Names(available[..|available| - 1]) + [Name(available[|available| - 1])]
  }

  lemma {:induction false} NamesAt(available: seq<string>, j: int)
    requires 0 <= j < |available|
    ensures Names(available)[j] == Name(available[j])
    decreases |available|
  {
    if j < |available| - 1 {
      NamesAt(available[..|available| - 1], j);
    }
  }

  /** The names the missing entries' files should have. */
  function Targets(fileOf: Entry -> string, missing: seq<Entry>): (r: seq<string>)
    ensures |r| == |missing|
    decreases |missing|
  {
    if missing == [] then []
    else Targets(fileOf, missing[..|missing| - 1]) + [Name(fileOf(missing[|missing| - 1]))]
  }

  lemma {:induction false} TargetsAt(fileOf: Entry -> string, missing: seq<Entry>, i: int)
    requires 0 <= i < |missing|
    ensures Targets(fileOf, missing)[i] == Name(fileOf(missing[i]))
    decreases |missing|
  {
    if i < |missing| - 1 {
      TargetsAt(fileOf, missing[..|missing| - 1], i);
    }
  }

  /** The distances from every available file name to one target name. */
  function Row(dist: (string, string) -> nat, target: string, names: seq<string>): (r: seq<nat>)
    ensures |r| == |names|
    decreases |names|
  {
    if names == [] then []
    else Row(dist, target, names[..|names| - 1]) + [dist(names[|names| - 1], target)]
  }

  lemma {:induction false} RowAt(dist: (string, string) -> nat, target: string, names: seq<string>, j: int)
    requires 0 <= j < |names|
    ensures Row(dist, target, names)[j] == dist(names[j], target)
    decreases |names|
  {
    if j < |names| - 1 {
      RowAt(dist, target, names[..|names| - 1], j);
    }
  }

  /** The distance matrix of one round: a row per missing entry, a column per
      available file. */
  function Rows(dist: (string, string) -> nat, targets: seq<string>, names: seq<string>): (rows: seq<seq<nat>>)
    ensures |rows| == |targets|
    decreases |targets|
  {
    if targets == [] then []
    else Rows(dist, targets[..|targets| - 1], names) + [Row(dist, targets[|targets| - 1], names)]
  }

  lemma {:induction false} RowsWidth(dist: (string, string) -> nat, targets: seq<string>, names: seq<string>, i: int)
    requires 0 <= i < |targets|
    ensures |Rows(dist, targets, names)[i]| == |names|
    decreases |targets|
  {
    if i < |targets| - 1 {
      RowsWidth(dist, targets[..|targets| - 1], names, i);
    }
  }

  lemma {:induction false} RowsAt(dist: (string, string) -> nat, targets: seq<string>, names: seq<string>,
                                  i: int, j: int)
    requires 0 <= i < |targets| && 0 <= j < |names|
    ensures |Rows(dist, targets, names)[i]| == |names|
    ensures Rows(dist, targets, names)[i][j] == dist(names[j], targets[i])
    decreases |targets|
  {
    if i < |targets| - 1 {
      RowsAt(dist, targets[..|targets| - 1], names, i, j);
    } else {
      RowAt(dist, targets[i], names, j);
    }
  }

  /** The running minimum of the selection loop: minDistance and the chosen pair of
      indices, None while missingEntry and availableFile are null. */
  datatype Best = Best(distance: int, pair: Option<(nat, nat)>)

  /** The inner loop over one row: a strictly smaller distance replaces the best. */
  function ScanRow(b: Best, row: seq<nat>, i: nat): Best
    decreases |row|
  {
    if row == [] then b
    else
      var r := ScanRow(b, row[..|row| - 1], i);
      var j := |row| - 1;
      if row[j] < r.distance then Best(row[j], Some((i, j))) else r
  }

  /** The nested loops over all rows, from minDistance = Integer.MAX_VALUE. */
  function ScanRows(rows: seq<seq<nat>>): Best
    decreases |rows|
  {
    if rows == [] then Best(MAX_INT, None)
    else ScanRow(ScanRows(rows[..|rows| - 1]), rows[|rows| - 1], |rows| - 1)
  }

  /** Pair (i, j) is in the matrix and the loops reach it before position (n, m). */
  predicate Scanned(rows: seq<seq<nat>>, n: int, m: int, i: int, j: int) {
    0 <= i < |rows| && 0 <= j < |rows[i]| && (i < n || (i == n && j < m))
  }

  /** `b` is the first minimum below MAX_INT of the pairs before (n, m), or no pair
      with MAX_INT when every such pair is at least MAX_INT. */
  ghost predicate FirstMinimum(rows: seq<seq<nat>>, n: int, m: int, b: Best) {
    match b.pair
    case None =>
      b.distance == MAX_INT && forall i, j :: Scanned(rows, n, m, i, j) ==> rows[i][j] >= MAX_INT
    case Some(p) =>
      && Scanned(rows, n, m, p.0, p.1) && b.distance == rows[p.0][p.1] < MAX_INT
      && (forall i, j :: Scanned(rows, n, m, i, j) ==> rows[i][j] >= b.distance)
      && (forall i, j :: Scanned(rows, p.0, p.1, i, j) ==> rows[i][j] > b.distance)
  }

  lemma {:induction false} ScanRowFirstMinimum(rows: seq<seq<nat>>, n: int, m: int, b: Best)
    requires 0 <= n < |rows| && 0 <= m <= |rows[n]| && FirstMinimum(rows, n, 0, b)
    ensures FirstMinimum(rows, n, m, ScanRow(b, rows[n][..m], n))
    decreases m
  {
    if m > 0 {
      ScanRowFirstMinimum(rows, n, m - 1, b);
      assert rows[n][..m][..m - 1] == rows[n][..m - 1];
      var r := ScanRow(b, rows[n][..m - 1], n);
      var d := rows[n][m - 1];
      if d < r.distance {
        var b' := Best(d, Some((n, m - 1)));
        assert forall i, j :: Scanned(rows, n, m, i, j) ==> rows[i][j] >= d by {
          forall i, j | Scanned(rows, n, m, i, j) ensures rows[i][j] >= d {
            if !(i == n && j == m - 1) {
              assert Scanned(rows, n, m - 1, i, j);
            }
          }
        }
        assert forall i, j :: Scanned(rows, n, m - 1, i, j) ==> rows[i][j] > d;
      } else {
        match r.pair
        case None =>
        case Some(p) =>
          assert forall i, j :: Scanned(rows, p.0, p.1, i, j) ==> rows[i][j] > r.distance;
      }
    }
  }

  lemma {:induction false} ScanRowsFirstMinimum(rows: seq<seq<nat>>, n: int)
    requires 0 <= n <= |rows|
    ensures FirstMinimum(rows, n, 0, ScanRows(rows[..n]))
    decreases n
  {
    if n > 0 {
      ScanRowsFirstMinimum(rows, n - 1);
      assert rows[..n][..n - 1] == rows[..n - 1];
      var b := ScanRows(rows[..n - 1]);
      ScanRowFirstMinimum(rows, n - 1, |rows[n - 1]|, b);
      assert rows[n - 1][..|rows[n - 1]|] == rows[n - 1];
      var r := ScanRows(rows[..n]);
      assert forall i, j :: Scanned(rows, n, 0, i, j) <==> Scanned(rows, n - 1, |rows[n - 1]|, i, j);
    }
  }

  /** The selection of one round. */
  function Select(dist: (string, string) -> nat, fileOf: Entry -> string,
                  missing: seq<Entry>, available: seq<string>): Best {
    ScanRows(Rows(dist, Targets(fileOf, missing), Names(available)))
  }

  /** The distance the loops compute for missing entry i and available file j. */
  function PairDistance(dist: (string, string) -> nat, fileOf: Entry -> string,
                        missing: seq<Entry>, available: seq<string>, i: int, j: int): nat
    requires 0 <= i < |missing| && 0 <= j < |available|
  {
    dist(Name(available[j]), Name(fileOf(missing[i])))
  }

  lemma {:induction false} RowsMatch(dist: (string, string) -> nat, fileOf: Entry -> string,
                                     missing: seq<Entry>, available: seq<string>, i: int, j: int)
    requires 0 <= i < |missing| && 0 <= j < |available|
    ensures var rows := Rows(dist, Targets(fileOf, missing), Names(available));
      |rows[i]| == |available| && rows[i][j] == PairDistance(dist, fileOf, missing, available, i, j)
  {
    RowsAt(dist, Targets(fileOf, missing), Names(available), i, j);
    NamesAt(available, j);
    TargetsAt(fileOf, missing, i);
  }

  /** Each round selects the (missing, available) pair of minimal distance, the first
      such pair in missing-then-available order; no pair is selected only when every
      distance is at least Integer.MAX_VALUE, as when `missing` is empty. */
  lemma {:induction false} SelectFirstMinimum(dist: (string, string) -> nat, fileOf: Entry -> string,
                                              missing: seq<Entry>, available: seq<string>)
    ensures var b := Select(dist, fileOf, missing, available);
      match b.pair
      case None =>
        b.distance == MAX_INT &&
        forall i, j :: 0 <= i < |missing| && 0 <= j < |available| ==>
          PairDistance(dist, fileOf, missing, available, i, j) >= MAX_INT
      case Some(p) =>
        && p.0 < |missing| && p.1 < |available|
        && b.distance == PairDistance(dist, fileOf, missing, available, p.0, p.1) < MAX_INT
        && (forall i, j :: 0 <= i < |missing| && 0 <= j < |available| ==>
              PairDistance(dist, fileOf, missing, available, i, j) >= b.distance)
        && (forall i, j :: 0 <= i < |missing| && 0 <= j < |available| && (i < p.0 || (i == p.0 && j < p.1)) ==>
              PairDistance(dist, fileOf, missing, available, i, j) > b.distance)
  {
    var rows := Rows(dist, Targets(fileOf, missing), Names(available));
    ScanRowsFirstMinimum(rows, |rows|);
    assert rows[..|rows|] == rows;
    forall i, j | 0 <= i < |missing| && 0 <= j < |available|
      ensures Scanned(rows, |rows|, 0, i, j)
      ensures rows[i][j] == PairDistance(dist, fileOf, missing, available, i, j)
    {
      RowsMatch(dist, fileOf, missing, available, i, j);
    }
    var b := ScanRows(rows);
    if b.pair.Some? {
      var p := b.pair.value;
      RowsWidth(dist, Targets(fileOf, missing), Names(available), p.0);
      RowsMatch(dist, fileOf, missing, available, p.0, p.1);
      forall i, j | 0 <= i < |missing| && 0 <= j < |available| && (i < p.0 || (i == p.0 && j < p.1))
        ensures Scanned(rows, p.0, p.1, i, j)
      {
        RowsMatch(dist, fileOf, missing, available, i, j);
      }
    }
  }

  /** The selected pair indexes `missing` and `available`. */
  lemma {:induction false} SelectInRange(dist: (string, string) -> nat, fileOf: Entry -> string,
                      missing: seq<Entry>, available: seq<string>)
    ensures var b := Select(dist, fileOf, missing, available);
      b.pair.Some? ==> b.pair.value.0 < |missing| && b.pair.value.1 < |available|
  {
    SelectFirstMinimum(dist, fileOf, missing, available);
  }

  lemma {:induction false} ScanRowStep(b: Best, dist: (string, string) -> nat, target: string,
                                       names: seq<string>, i: nat, j: int)
    requires 0 <= j < |names|
    ensures var r := ScanRow(b, Row(dist, target, names[..j]), i);
      var d := dist(names[j], target);
      ScanRow(b, Row(dist, target, names[..j + 1]), i) == if d < r.distance then Best(d, Some((i, j))) else r
  {
    assert names[..j + 1][..j] == names[..j];
  }

  lemma {:induction false} ScanRowsStep(dist: (string, string) -> nat, targets: seq<string>, names: seq<string>, i: int)
    requires 0 <= i < |targets|
    ensures ScanRows(Rows(dist, targets[..i + 1], names)) ==
      ScanRow(ScanRows(Rows(dist, targets[..i], names)), Row(dist, targets[i], names), i)
  {
    assert targets[..i + 1][..i] == targets[..i];
  }

  /** The nested loops of one round: the running minDistance and the indices of
      missingEntry and availableFile. */
  method SelectPair(dist: (string, string) -> nat, fileOf: Entry -> string,
                    missing: seq<Entry>, available: seq<string>)
    returns (minDistance: int, choice: Option<(nat, nat)>)
    ensures Best(minDistance, choice) == Select(dist, fileOf, missing, available)
  {
    ghost var targets := Targets(fileOf, missing);
    ghost var names := Names(available);
    minDistance := MAX_INT;
    choice := None;
    var i := 0;
    while i < |missing|
      invariant 0 <= i <= |missing|
      invariant Best(minDistance, choice) == ScanRows(Rows(dist, targets[..i], names))
    {
      ghost var before := Best(minDistance, choice);
      var currentName := fileOf(missing[i]);
      var j := 0;
      while j < |available|
        invariant 0 <= j <= |available|
        invariant Best(minDistance, choice) == ScanRow(before, Row(dist, targets[i], names[..j]), i)
      {
        var distance := dist(Name(available[j]), Name(currentName));
        NamesAt(available, j);
        TargetsAt(fileOf, missing, i);
        ScanRowStep(before, dist, targets[i], names, i, j);
        if distance < minDistance {
          minDistance := distance;
          choice := Some((i, j));
        }
        j := j + 1;
      }
      assert names[..|available|] == names;
      ScanRowsStep(dist, targets, names, i);
      i := i + 1;
    }
    assert targets[..|missing|] == targets;
  }

  /* ---------------------------------------------------------------- the rounds */

  /** How renameFiles ends: the folder is missing; no file is left; the best names are
      too different; no pair was selected, which the code as written cannot tell from a
      pair (NullFile: the dereference of the null availableFile); stdin ran out of
      answers. */
  datatype Status = NoFolder | Exhausted | TooDifferent | NoPair | NullFile | NoAnswer

  /** What renameFiles works with: the file each entry should have (its comments file
      or its PDF in the chosen folder), the name distance, whether `File.renameTo`
      succeeds, and whether a round without a pair stops instead of failing. */
  datatype Session = Session(fileOf: Entry -> string, dist: (string, string) -> nat,
                             renames: (string, string) -> bool, guarded: bool)

  /** The loop state: the entries still missing, the files still available, the
      answers not yet read, and the renamings done, as (old path, new path). */
  datatype State = State(missing: seq<Entry>, available: seq<string>, answers: seq<string>,
                         renamed: seq<(string, string)>)

  datatype Step = Stop(status: Status) | Continue(next: State)

  /** The final state and how the loop ended. */
  datatype Outcome = Outcome(status: Status, missing: seq<Entry>, available: seq<string>,
                             renamed: seq<(string, string)>)

  /** The cut-off `minDistance > getName().length() * 0.7`, in Java's double arithmetic. */
  predicate TooDifferentNames(distance: int, file: string) {
    AboveSevenTenths(distance, Length(Name(file)))
  }

  /* ---------------------------------------------------------------- the double cut-off */

  /* A double of [0, 2^31) is `p / 2^53` for an integer `p`; the functions below compute
     on that `p`. */

  const TWO_52: nat := 0x10_0000_0000_0000
  const TWO_53: nat := 0x20_0000_0000_0000

  /** The double nearest to 0.7 is `SEVEN_TENTHS / 2^53`, slightly below 0.7:
      `10 * SEVEN_TENTHS == 7 * 2^53 - 4`. */
  const SEVEN_TENTHS: nat := 6305039478318694

  /** The gap between neighbouring doubles around `p / 2^53`, times 2^53: 1 below 1.0,
      doubling with each power of two above. */
  function Ulp(p: nat): (u: nat)
    ensures u >= 1
  {
    if p < TWO_53 then 1 else 2 * Ulp(p / 2)
  }

  /** `p / 2^53` rounded to a double, that is to a multiple of Ulp(p), ties to even;
      times 2^53. */
  function RoundDouble(p: nat): nat {
    var u := Ulp(p);
    var q, r := p / u, p % u;
    if 2 * r > u || (2 * r == u && q % 2 == 1) then (q + 1) * u else q * u
  }

  /** `d > n * 0.7` as Java evaluates it for ints `d` and `n`: both widen to double
      exactly, and the product is rounded. */
  predicate AboveSevenTenths(d: int, n: nat) {
    d * TWO_53 > RoundDouble(n * SEVEN_TENTHS)
  }

  /** Above 1.0 the gap is at most `p / 2^52`: 53 significant bits. */
  lemma {:induction false} UlpBound(p: nat)
    ensures p < TWO_53 ==> Ulp(p) == 1
    ensures p >= TWO_53 ==> Ulp(p) * TWO_52 <= p
  {
    if p >= TWO_53 {
      UlpBound(p / 2);
    }
  }

  /** Rounding moves a value by at most half a gap. */
  lemma {:induction false} RoundDoubleClose(p: nat)
    ensures 2 * (RoundDouble(p) - p) <= Ulp(p) && 2 * (p - RoundDouble(p)) <= Ulp(p)
  {
    var u := Ulp(p);
    var q, r := p / u, p % u;
    assert p == q * u + r && 0 <= r < u;
    assert (q + 1) * u == q * u + u;
  }

  /** The double test is the integer test `10 * d > 7 * n` for every Java int `n`, except
      where `10 * d == 7 * n`: there the rounded product decides. */
  lemma {:induction false} SevenTenthsAgrees(d: int, n: nat)
    requires n <= MAX_INT && 10 * d != 7 * n
    ensures AboveSevenTenths(d, n) <==> 10 * d > 7 * n
  {
    var p := n * SEVEN_TENTHS;
    UlpBound(p);
    RoundDoubleClose(p);
    assert 10 * p == 7 * n * TWO_53 - 4 * n;
    assert Ulp(p) <= 2 * n + 1;
  }

  /** At name length 90 and distance 63, `90 * 0.7` rounds to 62.99999999999999, below
      63, so Java stops although `10 * 63 == 7 * 90`; at length 10 and distance 7 the
      tie rounds to exactly 7.0, and Java goes on. */
  lemma {:induction false} SevenTenthsAtTies()
    ensures 10 * 63 == 7 * 90 && AboveSevenTenths(63, 90)
    ensures 10 * 7 == 7 * 10 && !AboveSevenTenths(7, 10)
  {
    assert Ulp(8866461766385663) == 1;
    assert Ulp(17732923532771326) == 2;
    assert Ulp(35465847065542653) == 4;
    assert Ulp(70931694131085307) == 8;
    assert Ulp(141863388262170615) == 16;
    assert Ulp(283726776524341230) == 32;
    assert Ulp(90 * SEVEN_TENTHS) == 64;
    assert RoundDouble(90 * SEVEN_TENTHS) == 567453553048682432;
    assert Ulp(7881299347898367) == 1;
    assert Ulp(15762598695796735) == 2;
    assert Ulp(31525197391593470) == 4;
    assert Ulp(10 * SEVEN_TENTHS) == 8;
    assert RoundDouble(10 * SEVEN_TENTHS) == 7 * TWO_53;
  }

  /** One iteration of the while loop: select the closest pair, stop if the names are too
      different, read an answer; on "y" try the rename, and on success the file leaves
      `available`; the entry leaves `missing` in any case. */
  function Round(env: Session, st: State): (r: Step)
    ensures r.Continue? ==> |r.next.missing| == |st.missing| - 1
  {
    if st.available == [] then Stop(Exhausted)
    else
      var b := Select(env.dist, env.fileOf, st.missing, st.available);
      SelectInRange(env.dist, env.fileOf, st.missing, st.available);
      match b.pair
      case None => Stop(if env.guarded then NoPair else NullFile)
      case Some(p) =>
        var file := st.available[p.1];
        if TooDifferentNames(b.distance, file) then Stop(TooDifferent)
        else if st.answers == [] then Stop(NoAnswer)
        else
          var newName := env.fileOf(st.missing[p.0]);
          var moved := st.answers[0] == "y" && env.renames(file, newName);
          Continue(State(st.missing[..p.0] + st.missing[p.0 + 1..],
                         if moved then RemoveFirst(st.available, file) else st.available,
                         st.answers[1..],
                         if moved then st.renamed + [(file, newName)] else st.renamed))
  }

  /** The while loop of renameFiles, from one state to its end. */
  function Rounds(env: Session, st: State): Outcome
    decreases |st.missing|
  {
    match Round(env, st)
    case Stop(status) => Outcome(status, st.missing, st.available, st.renamed)
    case Continue(next) => Rounds(env, next)
  }

  /** renameFiles: nothing when the folder does not exist, else the first loop and then
      the rounds. */
  function RenameOutcome(env: Session, folderExists: bool, es: seq<Entry>, present: string -> bool,
                         listing: seq<string>, answers: seq<string>): Outcome
  {
    if !folderExists then Outcome(NoFolder, [], [], [])
    else
      var p := Reconcile(es, env.fileOf, present, listing);
      Rounds(env, State(p.missing, p.available, answers, []))
  }

  /** The old paths of renamings. */
  function Sources(renamed: seq<(string, string)>): (r: seq<string>)
    ensures |r| == |renamed|
    decreases |renamed|
  {
    if renamed == [] then [] else Sources(renamed[..|renamed| - 1]) + [renamed[|renamed| - 1].0]
  }

  /** A round stops for lack of files exactly when there are none; it stops without a
      pair only when every distance is at least Integer.MAX_VALUE, and fails on that
      only unguarded. */
  lemma {:induction false} RoundStop(env: Session, st: State)
    ensures var r := Round(env, st);
      r.Stop? ==>
        && r.status != NoFolder
        && (r.status == Exhausted <==> st.available == [])
        && (r.status == NullFile ==> !env.guarded)
        && (r.status == NoPair ==> env.guarded)
        && ((r.status == NoPair || r.status == NullFile) ==>
              forall i, j :: 0 <= i < |st.missing| && 0 <= j < |st.available| ==>
                PairDistance(env.dist, env.fileOf, st.missing, st.available, i, j) >= MAX_INT)
  {
    if st.available != [] {
      SelectFirstMinimum(env.dist, env.fileOf, st.missing, st.available);
    }
  }

  /** A round that goes on takes one entry off `missing` and reads one answer. */
  lemma {:induction false} RoundNextMissing(env: Session, st: State)
    ensures var r := Round(env, st);
      r.Continue? ==>
        && multiset(r.next.missing) <= multiset(st.missing)
        && st.answers != [] && r.next.answers == st.answers[1..]
  {
    if Round(env, st).Continue? {
      RoundGoesOn(env, st);
      var b := Select(env.dist, env.fileOf, st.missing, st.available);
      var m := b.pair.value.0;
      RoundContinues(env, st, m, b.pair.value.1);
      var next := Round(env, st).next;
      assert next.missing == st.missing[..m] + st.missing[m + 1..];
      RemoveAtMultiset(st.missing, m);
    }
  }

  /** A round that goes on either changes neither `available` nor the renamings, or,
      on answer "y" and a successful rename, records the renaming of the selected file
      and takes that file off `available`. */
  lemma {:induction false} RoundNextRenamed(env: Session, st: State)
    ensures var r := Round(env, st);
      r.Continue? ==>
        (r.next.available == st.available && r.next.renamed == st.renamed) ||
        (&& st.answers != [] && st.answers[0] == "y"
         && |r.next.renamed| == |st.renamed| + 1 && r.next.renamed[..|st.renamed|] == st.renamed
         && env.renames(r.next.renamed[|st.renamed|].0, r.next.renamed[|st.renamed|].1)
         && r.next.renamed[|st.renamed|].0 in st.available
         && r.next.available == RemoveFirst(st.available, r.next.renamed[|st.renamed|].0))
  {
    var r := Round(env, st);
    if r.Continue? && r.next.renamed != st.renamed {
      var b := Select(env.dist, env.fileOf, st.missing, st.available);
      SelectInRange(env.dist, env.fileOf, st.missing, st.available);
      assert r.next.renamed[..|st.renamed|] == st.renamed;
    }
  }

  /** A round goes on only with files left, a selected pair whose names are close
      enough, and an answer to read. */
  lemma {:induction false} RoundGoesOn(env: Session, st: State)
    requires Round(env, st).Continue?
    ensures st.available != [] && st.answers != []
    ensures var b := Select(env.dist, env.fileOf, st.missing, st.available);
      b.pair.Some? && b.pair.value.1 < |st.available| &&
      !TooDifferentNames(b.distance, st.available[b.pair.value.1])
  {
    SelectInRange(env.dist, env.fileOf, st.missing, st.available);
  }

  /** A round with a selected pair whose names are close enough, and an answer to read. */
  lemma {:induction false} RoundContinues(env: Session, st: State, m: nat, a: nat)
    requires st.available != [] && st.answers != []
    requires Select(env.dist, env.fileOf, st.missing, st.available).pair == Some((m, a))
    requires a < |st.available| && !TooDifferentNames(Select(env.dist, env.fileOf, st.missing, st.available).distance, st.available[a])
    ensures m < |st.missing|
    ensures var file := st.available[a];
      var newName := env.fileOf(st.missing[m]);
      var moved := st.answers[0] == "y" && env.renames(file, newName);
      Round(env, st) == Continue(State(st.missing[..m] + st.missing[m + 1..],
                                       if moved then RemoveFirst(st.available, file) else st.available,
                                       st.answers[1..],
                                       if moved then st.renamed + [(file, newName)] else st.renamed))
  {
    SelectInRange(env.dist, env.fileOf, st.missing, st.available);
  }

  /** The loop ends for lack of files exactly when none is left; it never ends with
      NoFolder, and it fails on a round without a pair only unguarded. */
  lemma {:induction false} RoundsStatus(env: Session, st: State)
    ensures var o := Rounds(env, st);
      && o.status != NoFolder
      && (o.available == [] <==> o.status == Exhausted)
      && (o.status == NullFile ==> !env.guarded)
    decreases |st.missing|
  {
    RoundStop(env, st);
    var r := Round(env, st);
    if r.Continue? {
      RoundsStatus(env, r.next);
    }
  }

  /** Entries only ever leave `missing`. */
  lemma {:induction false} RoundsMissing(env: Session, st: State)
    ensures multiset(Rounds(env, st).missing) <= multiset(st.missing)
    decreases |st.missing|
  {
    RoundNextMissing(env, st);
    var r := Round(env, st);
    if r.Continue? {
      RoundsMissing(env, r.next);
    }
  }

  /** The loop keeps earlier renamings and renames at most one file per answer read. */
  lemma {:induction false} RoundsRenamed(env: Session, st: State)
    ensures var o := Rounds(env, st);
      && |st.renamed| <= |o.renamed| && o.renamed[..|st.renamed|] == st.renamed
      && |o.renamed| - |st.renamed| <= |st.answers|
    decreases |st.missing|
  {
    RoundNextMissing(env, st);
    RoundNextRenamed(env, st);
    var r := Round(env, st);
    if r.Continue? {
      RoundsRenamed(env, r.next);
      PrefixOfPrefix(Rounds(env, st).renamed, r.next.renamed, st.renamed);
    }
  }

  /** Every renaming in `renamed` is one `File.renameTo` reported done. */
  predicate Succeeded(renames: (string, string) -> bool, renamed: seq<(string, string)>) {
    forall k :: 0 <= k < |renamed| ==> renames(renamed[k].0, renamed[k].1)
  }

  /** The loop records only renamings that succeeded. */
  lemma {:induction false} RoundsRenamesSucceed(env: Session, st: State)
    requires Succeeded(env.renames, st.renamed)
    ensures Succeeded(env.renames, Rounds(env, st).renamed)
    decreases |st.missing|
  {
    RoundNextRenamed(env, st);
    var r := Round(env, st);
    if r.Continue? {
      var next := r.next;
      assert Rounds(env, st) == Rounds(env, next);
      if next.renamed != st.renamed {
        PrefixSnoc(next.renamed, st.renamed);
        SucceededSnoc(env.renames, st.renamed, next.renamed[|st.renamed|]);
      }
      RoundsRenamesSucceed(env, next);
    }
  }

  lemma {:induction false} SucceededSnoc(renames: (string, string) -> bool, renamed: seq<(string, string)>, x: (string, string))
    requires Succeeded(renames, renamed) && renames(x.0, x.1)
    ensures Succeeded(renames, renamed + [x])
  {
  }

  lemma {:induction false} SourcesSnoc(renamed: seq<(string, string)>, x: (string, string))
    ensures Sources(renamed + [x]) == Sources(renamed) + [x.0]
  {
    assert (renamed + [x])[..|renamed|] == renamed;
  }

  /** A file leaves `available` only by being renamed: the files left and the files
      renamed make up the files there were. */
  lemma {:induction false} RoundsAvailable(env: Session, st: State)
    ensures var o := Rounds(env, st);
      multiset(o.available) + multiset(Sources(o.renamed)) == multiset(st.available) + multiset(Sources(st.renamed))
    decreases |st.missing|
  {
    RoundNextRenamed(env, st);
    var r := Round(env, st);
    if r.Continue? {
      var next := r.next;
      assert Rounds(env, st) == Rounds(env, next);
      RoundsAvailable(env, next);
      if next.renamed != st.renamed {
        var x := next.renamed[|st.renamed|];
        PrefixSnoc(next.renamed, st.renamed);
        SourcesSnoc(st.renamed, x);
        RemoveFirstMoves(st.available, Sources(st.renamed), x.0);
      }
    }
  }

  /** Without a "y" among the answers nothing is renamed and `available` is unchanged. */
  lemma {:induction false} RoundsNeedYes(env: Session, st: State)
    requires forall k :: 0 <= k < |st.answers| ==> st.answers[k] != "y"
    ensures Rounds(env, st).available == st.available && Rounds(env, st).renamed == st.renamed
    decreases |st.missing|
  {
    RoundNextMissing(env, st);
    RoundNextRenamed(env, st);
    var r := Round(env, st);
    if r.Continue? {
      assert st.answers[0] != "y";
      RoundsNeedYes(env, r.next);
    }
  }

  /** When every entry has its file or is ignored and the folder holds more PDFs than
      there are entries, no entry is missing while files are left. */
  lemma {:induction false} StrayFiles(fileOf: Entry -> string, es: seq<Entry>, present: string -> bool,
                                      listing: seq<string>)
    requires forall e :: e in es ==> present(fileOf(e)) || Ignored(e)
    requires |listing| > |es|
    ensures var p := Reconcile(es, fileOf, present, listing);
      p.missing == [] && p.available != []
  {
    var p := Reconcile(es, fileOf, present, listing);
    if p.missing != [] {
      ReconcileMissing(es, fileOf, present, listing, p.missing[0]);
      assert false;
    }
    ReconcileAvailable(es, fileOf, present, listing);
    var fs := ExistingFiles(es, fileOf, present);
    assert |multiset(listing) - multiset(fs)| >= |listing| - |fs| by {
      MultisetDifferenceSize(multiset(listing), multiset(fs));
    }
  }

  /** As written, renameFiles dereferences the null availableFile (Export.java line 207)
      whenever files are left and no entry is missing: for instance when every entry has
      its file and the folder holds one more PDF. */
  lemma {:induction false} StrayFileFails(env: Session, es: seq<Entry>, present: string -> bool, listing: seq<string>,
                       answers: seq<string>)
    requires !env.guarded
    requires forall e :: e in es ==> present(env.fileOf(e)) || Ignored(e)
    requires |listing| > |es|
    ensures RenameOutcome(env, true, es, present, listing, answers).status == NullFile
  {
    StrayFiles(env.fileOf, es, present, listing);
  }

  /** With the guard, the loop never fails on a missing pair; in the case above it stops
      with NoPair and reports the stray files as still available. */
  lemma {:induction false} StrayFileReported(env: Session, es: seq<Entry>, present: string -> bool, listing: seq<string>,
                          answers: seq<string>)
    requires env.guarded
    ensures RenameOutcome(env, true, es, present, listing, answers).status != NullFile
    ensures (forall e :: e in es ==> present(env.fileOf(e)) || Ignored(e)) && |listing| > |es| ==>
      var o := RenameOutcome(env, true, es, present, listing, answers);
      o.status == NoPair && o.available == Reconcile(es, env.fileOf, present, listing).available != []
  {
    var p := Reconcile(es, env.fileOf, present, listing);
    RoundsStatus(env, State(p.missing, p.available, answers, []));
    if (forall e :: e in es ==> present(env.fileOf(e)) || Ignored(e)) && |listing| > |es| {
      StrayFiles(env.fileOf, es, present, listing);
    }
  }
}
