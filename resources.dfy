/** The resource library of the resource controller: a fixed array of records
    whose view and download counters are bumped in place, a listing that
    filters a copy of it, and the resolution of a record id to the address of
    its PDF. */
module Resources {
  import opened Outcome
  import opened Seqs
  import opened Text

  datatype Resource = Resource(
    id: string,
    title: string,
    description: string,
    resourceType: string,   // the record's `type`: "Guide", "Template" or "Article"
    category: string,
    file: Option<string>,   // null for a record without a PDF
    views: nat,
    downloads: nat)

  /** The query string of `GET /api/resources`; a missing parameter is None. */
  datatype Query = Query(category: Option<string>, resourceType: Option<string>, search: Option<string>)

  // ---------------------------------------------------------------------------
  // Listing

  /** A category or type parameter filters only when it is present, non-empty
      and not "all". */
  predicate Selects(p: Option<string>)
  {
    p.Some? && p.value != "" && p.value != "all"
  }

  /** The search parameter filters only when something is left after trimming. */
  predicate Searching(q: Query)
  {
    q.search.Some? && Trim(q.search.value) != ""
  }

  /** The search term: trimmed, then lower-cased. */
  function Term(q: Query): string
    requires Searching(q)
  {
    Lower(Trim(q.search.value))
  }

  /** A record matches a term when its lower-cased title, description or
      (non-empty) category contains it. */
  predicate MatchesTerm(r: Resource, term: string)
  {
    Contains(Lower(r.title), term)
    || Contains(Lower(r.description), term)
    || (r.category != "" && Contains(Lower(r.category), term))
  }

  /** `getResources`: three successive filters over a copy of the store. */
  function Listing(store: seq<Resource>, q: Query): seq<Resource>
  {
    var list := store;
    var list := if Selects(q.category)
                then Filter(list, (r: Resource) => r.category == q.category.value) else list;
    var list := if Selects(q.resourceType)
                then Filter(list, (r: Resource) => r.resourceType == q.resourceType.value) else list;
    if Searching(q) then
      var term := Term(q);
      Filter(list, (r: Resource) => MatchesTerm(r, term))
    else list
  }

  /** What the listing keeps, stated at once: the record passes every filter the
      query switches on. */
  predicate Wanted(r: Resource, q: Query)
  {
    (!Selects(q.category) || r.category == q.category.value)
    && (!Selects(q.resourceType) || r.resourceType == q.resourceType.value)
    && (!Searching(q) || MatchesTerm(r, Term(q)))
  }

  /** The three-stage pipeline is a single filter by Wanted. */
  lemma ListingIsOneFilter(store: seq<Resource>, q: Query)
    ensures Listing(store, q) == Filter(store, (r: Resource) => Wanted(r, q))
  {
    var byCategory := (r: Resource) => !Selects(q.category) || r.category == q.category.value;
    var byType := (r: Resource) => !Selects(q.resourceType) || r.resourceType == q.resourceType.value;
    var bySearch := (r: Resource) => !Searching(q) || MatchesTerm(r, Term(q));
    var first2 := (r: Resource) => byCategory(r) && byType(r);
    var wanted := (r: Resource) => Wanted(r, q);
    var list1 := if Selects(q.category)
                 then Filter(store, (r: Resource) => r.category == q.category.value) else store;
    if Selects(q.category) {
      FilterSame(store, (r: Resource) => r.category == q.category.value, byCategory);
    } else {
      FilterAll(store, byCategory);
    }
    assert list1 == Filter(store, byCategory);
    var list2 := if Selects(q.resourceType)
                 then Filter(list1, (r: Resource) => r.resourceType == q.resourceType.value) else list1;
    if Selects(q.resourceType) {
      FilterSame(list1, (r: Resource) => r.resourceType == q.resourceType.value, byType);
    } else {
      FilterAll(list1, byType);
    }
    assert list2 == Filter(list1, byType);
    FilterFilter(store, byCategory, byType, first2);
    if Searching(q) {
      var term := Term(q);
      FilterSame(list2, (r: Resource) => MatchesTerm(r, term), bySearch);
    } else {
      FilterAll(list2, bySearch);
    }
    FilterFilter(store, first2, bySearch, wanted);
  }

  /** The listing is an order-preserving selection from the store holding
      exactly the wanted records. */
  lemma ListingSpec(store: seq<Resource>, q: Query)
    ensures IsSubsequence(Listing(store, q), store)
    ensures forall r :: r in Listing(store, q) <==> r in store && Wanted(r, q)
    ensures forall r :: multiset(Listing(store, q))[r] == if Wanted(r, q) then multiset(store)[r] else 0
  {
    ListingIsOneFilter(store, q);
  }

  /** With the category and type absent, empty or "all", and no search or an
      all-whitespace one, the listing is the whole store. */
  lemma ListingUnfiltered(store: seq<Resource>, q: Query)
    requires !Selects(q.category) && !Selects(q.resourceType)
    requires q.search.None? || forall k :: 0 <= k < |q.search.value| ==> IsWhitespace(q.search.value[k])
    ensures Listing(store, q) == store
  {
    if q.search.Some? {
      TrimEmptyIffBlank(q.search.value);
    }
  }

  /** The search is case-insensitive: two search strings that agree once
      lower-cased select the same records. */
  lemma SearchIgnoresCase(store: seq<Resource>, q: Query, s: string, t: string)
    requires Lower(s) == Lower(t)
    ensures Listing(store, q.(search := Some(s))) == Listing(store, q.(search := Some(t)))
  {
    LowerTrim(s);
    LowerTrim(t);
    assert |Trim(s)| == |Lower(Trim(s))| == |Lower(Trim(t))| == |Trim(t)|;
  }

  /** A term matches a record exactly when it occurs in the lower-cased title,
      description or category. */
  lemma MatchesTermIsSubstring(r: Resource, term: string)
    ensures MatchesTerm(r, term) <==>
      (exists i :: OccursAt(Lower(r.title), term, i))
      || (exists i :: OccursAt(Lower(r.description), term, i))
      || (r.category != "" && exists i :: OccursAt(Lower(r.category), term, i))
  {
    var title, description, category := Lower(r.title), Lower(r.description), Lower(r.category);
    ContainsIsSubstring(title, term);
    ContainsIsSubstring(description, term);
    ContainsIsSubstring(category, term);
    assert MatchesTerm(r, term) <==>
      Contains(title, term) || Contains(description, term) || (r.category != "" && Contains(category, term));
    assert Contains(title, term) <==> exists i :: OccursAt(Lower(r.title), term, i);
    assert Contains(description, term) <==> exists i :: OccursAt(Lower(r.description), term, i);
    assert Contains(category, term) <==> exists i :: OccursAt(Lower(r.category), term, i);
  }

  // ---------------------------------------------------------------------------
  // Lower-casing commutes with trimming

  lemma {:induction false} LeadingSpaceLower(s: string)
    ensures LeadingSpace(Lower(s)) == LeadingSpace(s)
    decreases |s|
  {
    if s != [] {
      LowerDrop(s, 1);
      LeadingSpaceLower(s[1..]);
    }
  }

  lemma {:induction false} TrailingSpaceLower(s: string)
    ensures TrailingSpace(Lower(s)) == TrailingSpace(s)
    decreases |s|
  {
    if s != [] {
      LowerTake(s, |s| - 1);
      TrailingSpaceLower(s[..|s| - 1]);
    }
  }

  /** Trim as a cut: the leading whitespace dropped, then the trailing. */
  lemma TrimCut(s: string)
    ensures LeadingSpace(s) == |s| ==> Trim(s) == []
    ensures LeadingSpace(s) < |s| ==>
      var rest := s[LeadingSpace(s)..];
      Trim(s) == rest[..|rest| - TrailingSpace(rest)]
  {
  }

  /** Lower-casing works character by character, so it distributes over
      concatenation. */
  lemma {:induction false} LowerAppend(x: string, y: string)
    ensures Lower(x + y) == Lower(x) + Lower(y)
    decreases |x|
  {
    if x != [] {
      assert (x + y)[1..] == x[1..] + y;
      LowerAppend(x[1..], y);
    }
  }

  lemma LowerDrop(s: string, n: nat)
    requires n <= |s|
    ensures Lower(s)[n..] == Lower(s[n..])
  {
    assert s == s[..n] + s[n..];
    LowerAppend(s[..n], s[n..]);
  }

  lemma LowerTake(s: string, n: nat)
    requires n <= |s|
    ensures Lower(s)[..n] == Lower(s[..n])
  {
    assert s == s[..n] + s[n..];
    LowerAppend(s[..n], s[n..]);
  }

  /** Trimming the lower-cased string cuts at the same places. */
  lemma TrimLowerCut(s: string)
    ensures LeadingSpace(s) == |s| ==> Trim(Lower(s)) == []
    ensures LeadingSpace(s) < |s| ==>
      var rest := s[LeadingSpace(s)..];
      Trim(Lower(s)) == Lower(rest)[..|rest| - TrailingSpace(rest)]
  {
    var low := Lower(s);
    TrimCut(low);
    LeadingSpaceLower(s);
    var lead := LeadingSpace(s);
    if lead < |s| {
      var rest := s[lead..];
      LowerDrop(s, lead);
      assert low[lead..] == Lower(rest);
      TrailingSpaceLower(rest);
      assert Trim(low) == Lower(rest)[..|rest| - TrailingSpace(rest)];
    }
  }

  lemma LowerTrim(s: string)
    ensures Lower(Trim(s)) == Trim(Lower(s))
  {
    TrimCut(s);
    TrimLowerCut(s);
    var lead := LeadingSpace(s);
    if lead < |s| {
      var rest := s[lead..];
      var n := |rest| - TrailingSpace(rest);
      assert Trim(s) == rest[..n];
      LowerTake(rest, n);
      assert Lower(Trim(s)) == Lower(rest)[..n];
    } else {
      assert Trim(s) == [];
    }
  }

  // ---------------------------------------------------------------------------
  // The file address of a record

  /** An entry of the id-to-file table `getResourceFile` keeps. */
  datatype FileEntry = FileEntry(id: string, file: string)

  /** The table `getResourceFile` searches, in its order. */
  const FileTable: seq<FileEntry> := [
    FileEntry("1", "Tenants-Rights.pdf"),
    FileEntry("5", "DISCRIMINATION.pdf"),
    FileEntry("6", "englishconstitution.pdf"),
    FileEntry("7", "Labour_Law.pdf"),
    FileEntry("8", "Model-Tenancy-Act-English.pdf"),
    FileEntry("9", "Notice-of-Termination.pdf"),
    FileEntry("10", "PRIVACY_LAW.pdf"),
    FileEntry("11", "RIGHT_EVICTION.pdf"),
    FileEntry("12", "Tenants-Rights-Handbook.pdf"),
    FileEntry("13", "Woman_Law.pdf")
  ]

  /** An address on the image host: the stored object name and its upload stamp. */
  function HostedPdf(name: string, stamp: string): string
  {
    "https://ik.imagekit.io/waghDev/lawsphere/pdf/" + name + "?updatedAt=" + stamp
  }

  /** The file-name-to-address table of `getResourceFile`. Three names map to
      stored objects under another name. */
  const PdfUrls: map<string, string> := map[
    "Woman_Law.pdf" := HostedPdf("Woman_Law.pdf", "1742669340490"),
    "englishconstitution.pdf" := HostedPdf("englishconstitution.pdf", "1742669337718"),
    "Model-Tenancy-Act-English.pdf" := HostedPdf("Model-Tenancy-Act-English-02_06_2021.pdf", "1742669334836"),
    "Labour_Law.pdf" := HostedPdf("Labour_Law.pdf", "1742669334242"),
    "RIGHT_EVICTION.pdf" := HostedPdf("RIGHT_EVICTION.pdf", "1742669333941"),
    "Tenants-Rights-Handbook.pdf" := HostedPdf("Tenants-Rights-Handbook.pdf", "1742669333336"),
    "PRIVACY_LAW.pdf" := HostedPdf("PRIVACY_LAW.pdf", "1742669331369"),
    "Notice-of-Termination.pdf" := HostedPdf("Notice-of-Termination.pdf", "1742669330931"),
    "DISCRIMINATION.pdf" := HostedPdf("DISCRIMATION.pdf", "1742669330031"),
    "Tenants-Rights.pdf" := HostedPdf("Tenants-Rights-Handbook.pdf", "1742669333336")
  ]

  /** An entry of the address table that points at a hosted object is a
      non-empty address. */
  lemma PdfUrlsHosted(file: string, name: string, stamp: string)
    requires file in PdfUrls && PdfUrls[file] == HostedPdf(name, stamp)
    ensures PdfUrls[file] != ""
  {
    assert |HostedPdf(name, stamp)| >= 45;
  }

  /** The two-step lookup: id to file name through `table` (first entry with
      the id), then file name to address through `urls`. */
  function ResolveFile(table: seq<FileEntry>, urls: map<string, string>, id: string): (r: Result<string>)
    ensures r == NotFound(ResourceFileMissing) <==>
      (forall k :: 0 <= k < |table| ==> table[k].id != id)
      || (exists k :: 0 <= k < |table| && table[k].id == id && table[k].file == ""
            && forall j :: 0 <= j < k ==> table[j].id != id)
    ensures r.Ok? <==>
      exists k :: 0 <= k < |table| && table[k].id == id && table[k].file != "" && table[k].file in urls
        && urls[table[k].file] != ""
        && (forall j :: 0 <= j < k ==> table[j].id != id) && r == Ok(urls[table[k].file])
    ensures r.NotFound? ==> r.what == ResourceFileMissing || r.what == FileUrlMissing
  {
    match FirstWhere(table, (e: FileEntry) => e.id == id)
    case None => NotFound(ResourceFileMissing)
    case Some(k) =>
      var file := table[k].file;
      if file == "" then NotFound(ResourceFileMissing)
      else if file !in urls || urls[file] == "" then NotFound(FileUrlMissing)
      else Ok(urls[file])
  }

  /** `getResourceFile`: both values of the `download` flag redirect to the
      same address. */
  function GetResourceFile(id: string, download: bool): Result<string>
  {
    if download then ResolveFile(FileTable, PdfUrls, id) else ResolveFile(FileTable, PdfUrls, id)
  }

  lemma DownloadFlagIgnored(id: string)
    ensures GetResourceFile(id, true) == GetResourceFile(id, false) == ResolveFile(FileTable, PdfUrls, id)
  {
  }

  // ---------------------------------------------------------------------------
  // The id-to-file table offset from the catalogue, and its correction

  /** The table the catalogue's own records imply: each record's id with its
      file name ("" for a record without one). */
  function FileTableOf(store: seq<Resource>): (table: seq<FileEntry>)
    ensures |table| == |store|
    ensures forall k :: 0 <= k < |store| ==>
      table[k] == FileEntry(store[k].id, if store[k].file.Some? then store[k].file.value else "")
  {
    if store == [] then []
    else
      var r := store[0];
      [FileEntry(r.id, if r.file.Some? then r.file.value else "")] + FileTableOf(store[1..])
  }

  /** The position of the first record with the given id, as `findIndex`
      finds it. */
  function FindResource(store: seq<Resource>, id: string): Option<nat>
  {
    FirstWhere(store, (r: Resource) => r.id == id)
  }

  /** The file address of a record resolved through the record's own `file`
      field, which the file table was evidently meant to mirror. */
  function RecordFile(store: seq<Resource>, id: string): Result<string>
  {
    ResolveFile(FileTableOf(store), PdfUrls, id)
  }

  /** A record found by its id resolves, through any address table, to the
      address of its own file, and to "file not found" when it has none or
      there is no such record. */
  lemma ResolveThroughRecords(store: seq<Resource>, urls: map<string, string>, id: string)
    ensures FindResource(store, id).None? ==>
      ResolveFile(FileTableOf(store), urls, id) == NotFound(ResourceFileMissing)
    ensures FindResource(store, id).Some? ==>
      var f := store[FindResource(store, id).value].file;
      ResolveFile(FileTableOf(store), urls, id) ==
        if f.None? || f.value == "" then NotFound(ResourceFileMissing)
        else if f.value !in urls || urls[f.value] == "" then NotFound(FileUrlMissing)
        else Ok(urls[f.value])
  {
    var table := FileTableOf(store);
    var byId := (e: FileEntry) => e.id == id;
    match FindResource(store, id)
    case None =>
      assert FirstWhere(table, byId).None?;
    case Some(k) =>
      FirstWhereAt(table, byId, k);
  }

  const TenantBasics := "Essential information for renters about lease agreements, maintenance "
                        + "responsibilities, eviction procedures, and security deposits."
  const PowerOfAttorney := "Customize this power of attorney template to authorize someone to make "
                           + "legal decisions on your behalf."
  const DiscriminationOverview := "Comprehensive guide to discrimination laws and protections for "
                                  + "individuals in various settings."
  const ConstitutionOverview := "Overview of the English constitutional framework and principles."
  const LabourHandbook := "Guide to employment laws, worker rights, and employer obligations."
  const TenancyActText := "Complete text of the Model Tenancy Act with explanations and implications "
                          + "for landlords and tenants."
  const TerminationTemplate := "Template for creating a legally valid termination notice for tenancy "
                               + "agreements."
  const PrivacyGuide := "Understanding privacy laws and your rights to data protection and "
                        + "confidentiality."
  const EvictionGuide := "Legal guide to eviction procedures and tenant rights during eviction."
  const TenantHandbook := "Comprehensive handbook on tenant rights, responsibilities, and legal remedies."
  const WomenRights := "Guide to legal protections and rights specific to women across various "
                       + "areas of law."

  /** The records `getMockResources` builds, by id. */
  const Record1 := Resource("1", "Know Your Rights: Tenant Basics", TenantBasics, "Guide",
                       "Housing & Tenant Rights", Some("Tenants-Rights.pdf"), 0, 0)
  const Record2 := Resource("2", "Power of Attorney Form", PowerOfAttorney, "Template",
                       "Family Law", None, 0, 0)
  const Record3 := Resource("3", "Discrimination Law Overview", DiscriminationOverview, "Guide",
                       "Civil Rights", Some("DISCRIMINATION.pdf"), 0, 0)
  const Record4 := Resource("4", "English Constitution", ConstitutionOverview, "Guide",
                       "Other", Some("englishconstitution.pdf"), 0, 0)
  const Record5 := Resource("5", "Labour Law Handbook", LabourHandbook, "Guide",
                       "Employment Law", Some("Labour_Law.pdf"), 0, 0)
  const Record6 := Resource("6", "Model Tenancy Act", TenancyActText, "Guide",
                       "Housing & Tenant Rights", Some("Model-Tenancy-Act-English.pdf"), 0, 0)
  const Record7 := Resource("7", "Notice of Termination Template", TerminationTemplate, "Template",
                       "Housing & Tenant Rights", Some("Notice-of-Termination.pdf"), 0, 0)
  const Record8 := Resource("8", "Privacy Law Guide", PrivacyGuide, "Guide",
                       "Consumer Rights", Some("PRIVACY_LAW.pdf"), 0, 0)
  const Record9 := Resource("9", "Eviction Rights and Processes", EvictionGuide, "Guide",
                       "Housing & Tenant Rights", Some("RIGHT_EVICTION.pdf"), 0, 0)
  const Record10 := Resource("10", "Tenants' Rights Handbook", TenantHandbook, "Guide",
                       "Housing & Tenant Rights", Some("Tenants-Rights-Handbook.pdf"), 0, 0)
  const Record11 := Resource("11", "Women's Legal Rights", WomenRights, "Guide",
                       "Civil Rights", Some("Woman_Law.pdf"), 0, 0)

  /** The records the in-memory store starts with. */
  const MockResources: seq<Resource> :=
    [Record1, Record2, Record3, Record4, Record5, Record6, Record7, Record8, Record9, Record10, Record11]

  /** As written, the table of `getResourceFile` sends id "5" to the
      discrimination PDF. */
  lemma FileTableSendsFiveAstray()
    ensures GetResourceFile("5", false) == Ok(PdfUrls["DISCRIMINATION.pdf"])
    ensures PdfUrls["DISCRIMINATION.pdf"] != PdfUrls["Labour_Law.pdf"]
  {
    FirstWhereAt(FileTable, (e: FileEntry) => e.id == "5", 1);
    assert PdfUrls["DISCRIMINATION.pdf"][46] != PdfUrls["Labour_Law.pdf"][46];
  }

  /** As written, the table of `getResourceFile` has no entry for id "3". */
  lemma FileTableMissesThree()
    ensures GetResourceFile("3", false) == NotFound(ResourceFileMissing)
  {
    assert forall k :: 0 <= k < |FileTable| ==> FileTable[k].id != "3";
  }

  /** As written, the table of `getResourceFile` sends record "5", the labour
      law handbook, to the discrimination PDF, and finds no file for record
      "3", which has one. */
  lemma FileTableMisaligned()
    ensures MockResources[4].id == "5" && MockResources[4].file == Some("Labour_Law.pdf")
    ensures GetResourceFile("5", false) == Ok(PdfUrls["DISCRIMINATION.pdf"])
    ensures PdfUrls["DISCRIMINATION.pdf"] != PdfUrls["Labour_Law.pdf"]
    ensures MockResources[2].id == "3" && MockResources[2].file == Some("DISCRIMINATION.pdf")
    ensures GetResourceFile("3", false) == NotFound(ResourceFileMissing)
  {
    SeedFilesOfThreeAndFive();
    FileTableSendsFiveAstray();
    FileTableMissesThree();
  }

  /** Records "3" and "5" of the catalogue and their files. */
  lemma SeedFilesOfThreeAndFive()
    ensures MockResources[4].id == "5" && MockResources[4].file == Some("Labour_Law.pdf")
    ensures MockResources[2].id == "3" && MockResources[2].file == Some("DISCRIMINATION.pdf")
  {
  }

  /** Resolved through the records themselves, record "5" reaches the labour
      law PDF. */
  lemma RecordFileRepairsLabourLaw()
    ensures RecordFile(MockResources, "5") == Ok(PdfUrls["Labour_Law.pdf"])
  {
    var store := MockResources;
    FirstWhereAt(store, (r: Resource) => r.id == "5", 4);
    ResolveThroughRecords(store, PdfUrls, "5");
    assert store[4].file == Some("Labour_Law.pdf");
    LabourLawHosted();
  }

  /** The labour law PDF has a non-empty address. */
  lemma LabourLawHosted()
    ensures "Labour_Law.pdf" in PdfUrls && PdfUrls["Labour_Law.pdf"] != ""
  {
    PdfUrlsHosted("Labour_Law.pdf", "Labour_Law.pdf", "1742669334242");
  }

  /** Resolved through the records themselves, record "3" reaches the
      discrimination PDF. */
  lemma RecordFileRepairsDiscrimination()
    ensures RecordFile(MockResources, "3") == Ok(PdfUrls["DISCRIMINATION.pdf"])
  {
    var store := MockResources;
    FirstWhereAt(store, (r: Resource) => r.id == "3", 2);
    ResolveThroughRecords(store, PdfUrls, "3");
    assert store[2].file == Some("DISCRIMINATION.pdf");
    PdfUrlsHosted("DISCRIMINATION.pdf", "DISCRIMATION.pdf", "1742669330031");
  }

  // ---------------------------------------------------------------------------
  // The in-memory store

  /** `resourceStore`: the record array whose counters persist while the
      server runs. */
  class Catalogue {
    const records: array<Resource>

    constructor ()
      ensures fresh(records)
      ensures records[..] == MockResources
    {
      records := new Resource[|MockResources|](i requires 0 <= i < |MockResources| => MockResources[i]);
    }

    /** `getResources` over the current records. */
    method GetResources(q: Query) returns (list: seq<Resource>)
      ensures IsSubsequence(list, records[..])
      ensures forall r :: r in list <==> r in records[..] && Wanted(r, q)
      ensures list == Listing(records[..], q)
    {
      list := Listing(records[..], q);
      ListingSpec(records[..], q);
    }

    /** `incrementView`: bumps the view counter of the first record with the
        id and answers the new count. */
    method IncrementView(id: string) returns (r: Result<nat>)
      modifies records
      ensures FindResource(old(records[..]), id).None? ==>
        r == NotFound(ResourceMissing) && records[..] == old(records[..])
      ensures FindResource(old(records[..]), id).Some? ==>
        var i := FindResource(old(records[..]), id).value;
        var before := old(records[..])[i];
        r == Ok(before.views + 1)
        && records[..] == old(records[..])[i := before.(views := before.views + 1)]
    {
      var found := FindResource(records[..], id);
      if found.None? {
        return NotFound(ResourceMissing);
      }
      var i := found.value;
      records[i] := records[i].(views := records[i].views + 1);
      r := Ok(records[i].views);
    }

    /** `incrementDownload`: the same for the download counter. */
    method IncrementDownload(id: string) returns (r: Result<nat>)
      modifies records
      ensures FindResource(old(records[..]), id).None? ==>
        r == NotFound(ResourceMissing) && records[..] == old(records[..])
      ensures FindResource(old(records[..]), id).Some? ==>
        var i := FindResource(old(records[..]), id).value;
        var before := old(records[..])[i];
        r == Ok(before.downloads + 1)
        && records[..] == old(records[..])[i := before.(downloads := before.downloads + 1)]
    {
      var found := FindResource(records[..], id);
      if found.None? {
        return NotFound(ResourceMissing);
      }
      var i := found.value;
      records[i] := records[i].(downloads := records[i].downloads + 1);
      r := Ok(records[i].downloads);
    }

    /** The file address of a record, resolved through the record's own file. */
    method ResourceFile(id: string, download: bool) returns (r: Result<string>)
      ensures r == RecordFile(records[..], id)
    {
      r := RecordFile(records[..], id);
    }
  }
}
