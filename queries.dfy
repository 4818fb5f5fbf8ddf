/** The read-only views of one user's records: show_passwords_by_category,
    search_passwords and show_all_passwords. Each lists resources in ascending order with
    their passwords decrypted; the printing itself is not modelled, the lines printed are. */
module Queries {
  import opened Text
  import opened Ordering
  import opened Cipher
  import opened Categories
  import opened Keychain

  /** One printed line "resource: password". */
  datatype Entry = Entry(resource: string, password: string)

  /** One printed line of a search, "resource [category]: password". */
  datatype Hit = Hit(resource: string, password: string, category: string)

  /** The lines for the given resources, in the given order, passwords decrypted. */
  function Listing(cs: string, passwords: map<string, Record>, names: seq<string>): seq<Entry>
    requires forall i :: 0 <= i < |names| ==> names[i] in passwords
  {
    seq(|names|, i requires 0 <= i < |names| => Entry(names[i], Decrypt(cs, passwords[names[i]])))
  }

  /** The resources filed under `category` (the comprehension `filtered`). */
  function InCategory(passwords: map<string, Record>, category: string): set<string> {
    set r | r in passwords && passwords[r].category == category
  }

  /** The lines show_passwords_by_category prints for a category. */
  function ByCategory(cs: string, passwords: map<string, Record>, category: string): seq<Entry> {
    Listing(cs, passwords, SortedKeys(InCategory(passwords, category)))
  }

  /** The listing of a category holds exactly its records, each once, in ascending order of
      resource name, each with its decrypted password; it has len(filtered) lines. */
  lemma ByCategoryExact(cs: string, passwords: map<string, Record>, category: string)
    ensures var r := ByCategory(cs, passwords, category);
      && |r| == |InCategory(passwords, category)|
      && (forall e :: e in r <==>
            e.resource in passwords && passwords[e.resource].category == category
            && e.password == Decrypt(cs, passwords[e.resource]))
      && (forall i, j :: 0 <= i < j < |r| ==> Below(r[i].resource, r[j].resource) && r[i].resource != r[j].resource)
  {
    var names := SortedKeys(InCategory(passwords, category));
    var r := ByCategory(cs, passwords, category);
    forall e ensures e in r <==>
      e.resource in passwords && passwords[e.resource].category == category
      && e.password == Decrypt(cs, passwords[e.resource])
    {
      if e.resource in passwords && passwords[e.resource].category == category
         && e.password == Decrypt(cs, passwords[e.resource]) {
        assert e.resource in names;
        var i :| 0 <= i < |names| && names[i] == e.resource;
        assert r[i] == e;
      }
    }
  }

  /** What show_passwords_by_category ends with. */
  datatype CategoryView =
    | NoSuchChoice
    | NothingInCategory(category: string)
    | CategoryListing(category: string, entries: seq<Entry>, count: nat)

  /** show_passwords_by_category with the menu answer given. */
  function ShowByCategory(cs: string, acc: Account, answer: string): CategoryView {
    match ChooseListedCategory(acc.customCategories, answer)
    case None => NoSuchChoice
    case Some(c) =>
      var entries := ByCategory(cs, acc.passwords, c);
      if InCategory(acc.passwords, c) == {} then NothingInCategory(c)
      else CategoryListing(c, entries, |InCategory(acc.passwords, c)|)
  }

  /** show_passwords_by_category rejects exactly the answers that pick no menu line, says
      "nothing here" exactly for a category without records, and otherwise lists that
      category with its count of lines. */
  lemma ShowByCategoryExact(cs: string, acc: Account, answer: string)
    ensures var v := ShowByCategory(cs, acc, answer);
      var choice := ChooseListedCategory(acc.customCategories, answer);
      && (v == NoSuchChoice <==> choice.None?)
      && (v.NothingInCategory? ==>
            && choice == Some(v.category)
            && forall r :: r in acc.passwords ==> acc.passwords[r].category != v.category)
      && (v.CategoryListing? ==>
            && choice == Some(v.category) && v.entries != []
            && v.entries == ByCategory(cs, acc.passwords, v.category) && v.count == |v.entries|)
  {
    var v := ShowByCategory(cs, acc, answer);
    if v.NothingInCategory? {
      forall r | r in acc.passwords ensures acc.passwords[r].category != v.category {
        assert r !in InCategory(acc.passwords, v.category);
      }
    }
    if v.CategoryListing? {
      ByCategoryExact(cs, acc.passwords, v.category);
    }
  }

  /** A password saved by add_password is shown, decrypted, under its category. */
  lemma AddedPasswordListed(cs: string, users: Users, login: string, resourceAnswer: string, category: string,
                            passwordAnswer: string, generated: string)
    requires login in users && Distinct(cs)
    requires AfterAdd(cs, users, login, resourceAnswer, category, passwordAnswer, generated).outcome == Done
    ensures var after := AfterAdd(cs, users, login, resourceAnswer, category, passwordAnswer, generated).users;
      Entry(Strip(resourceAnswer), ChosenPassword(passwordAnswer, generated)) in ByCategory(cs, after[login].passwords, category)
  {
    AddEffect(cs, users, login, resourceAnswer, category, passwordAnswer, generated);
    var after := AfterAdd(cs, users, login, resourceAnswer, category, passwordAnswer, generated).users;
    ByCategoryExact(cs, after[login].passwords, category);
  }

  // Search.

  /** `term in resource.lower()`. */
  predicate Matches(term: string, resource: string) {
    Contains(Lower(resource), term)
  }

  function Hits(cs: string, passwords: map<string, Record>, names: seq<string>): seq<Hit>
    requires forall i :: 0 <= i < |names| ==> names[i] in passwords
  {
    seq(|names|, i requires 0 <= i < |names| =>
      Hit(names[i], Decrypt(cs, passwords[names[i]]), passwords[names[i]].category))
  }

  /** What search_passwords ends with. */
  datatype SearchView =
    | EmptyQuery
    | NothingFound(term: string)
    | SearchResults(term: string, hits: seq<Hit>, count: nat)

  function SearchSpec(cs: string, passwords: map<string, Record>, answer: string): SearchView {
    var term := Lower(Strip(answer));
    if term == [] then EmptyQuery
    else
      var found := Found(passwords, term);
      if found == {} then NothingFound(term)
      else SearchResults(term, Hits(cs, passwords, SortedKeys(found)), |found|)
  }

  /** The elements of a list, as a set. */
  function Members(s: seq<string>): set<string> {
    set x | x in s
  }

  /** The number of distinct elements of a sequence without repeats is its length. */
  lemma {:induction false} DistinctCount(s: seq<string>)
    requires forall i, j :: 0 <= i < j < |s| ==> s[i] != s[j]
    ensures |Members(s)| == |s|
  {
    if s != [] {
      var t := s[..|s| - 1];
      DistinctCount(t);
      assert Members(s) == Members(t) + {s[|s| - 1]};
      assert s[|s| - 1] !in Members(t);
    }
  }

  /** The resources of `passwords` whose name contains `term`. */
  function Found(passwords: map<string, Record>, term: string): set<string> {
    set r | r in passwords && Matches(term, r)
  }

  /** The list search_passwords collects, once it holds the matching resources each once,
      gives the outcome of SearchSpec. */
  lemma FoundList(cs: string, passwords: map<string, Record>, answer: string, term: string, found: seq<string>)
    requires term == Lower(Strip(answer)) != []
    requires forall r :: r in found <==> r in passwords && Matches(term, r)
    requires forall i, j :: 0 <= i < j < |found| ==> found[i] != found[j]
    ensures Members(found) == Found(passwords, term) && |found| == |Found(passwords, term)|
    ensures found == [] ==> SearchSpec(cs, passwords, answer) == NothingFound(term)
    ensures found != [] ==>
      SearchSpec(cs, passwords, answer) == SearchResults(term, Hits(cs, passwords, SortedKeys(Members(found))), |found|)
  {
    DistinctCount(found);
    assert Members(found) == Found(passwords, term);
  }

  /** The loop of search_passwords: every resource whose lower-cased name contains the
      term, each once. */
  method CollectMatches(passwords: map<string, Record>, term: string) returns (found: seq<string>)
    ensures forall r :: r in found <==> r in passwords && Matches(term, r)
    ensures forall i, j :: 0 <= i < j < |found| ==> found[i] != found[j]
  {
    found := [];
    var rest := passwords.Keys;
    ghost var done: set<string> := {};
    while rest != {}
      invariant rest + done == passwords.Keys && rest !! done
      invariant forall r :: r in found <==> r in done && Matches(term, r)
      invariant forall i, j :: 0 <= i < j < |found| ==> found[i] != found[j]
      decreases |rest|
    {
      var r :| r in rest;
      if Matches(term, r) {
        found := found + [r];
      }
      rest := rest - {r};
      done := done + {r};
    }
  }

  /** search_passwords: the stripped, lower-cased term, the matching resources, then the
      sorted listing. */
  method Search(cs: string, passwords: map<string, Record>, answer: string) returns (v: SearchView)
    ensures v == SearchSpec(cs, passwords, answer)
  {
    var term := Lower(Strip(answer));
    if term == [] {
      return EmptyQuery;
    }
    var found := CollectMatches(passwords, term);
    FoundList(cs, passwords, answer, term, found);
    if found == [] {
      return NothingFound(term);
    }
    v := SearchResults(term, Hits(cs, passwords, SortedKeys(Members(found))), |found|);
  }

  /** A search with a non-empty term lists exactly the resources whose lower-cased name
      contains the term, each once and in ascending order, and counts them; "nothing
      found" comes exactly when no resource matches, and an empty term is refused. */
  lemma SearchExact(cs: string, passwords: map<string, Record>, answer: string)
    ensures var v := SearchSpec(cs, passwords, answer);
      var term := Lower(Strip(answer));
      && (v == EmptyQuery <==> term == [])
      && (v.SearchResults? ==>
           && v.hits != [] && v.count == |v.hits|
           && (forall h :: h in v.hits <==>
                 h.resource in passwords && Matches(term, h.resource)
                 && h.password == Decrypt(cs, passwords[h.resource])
                 && h.category == passwords[h.resource].category)
           && (forall i, j :: 0 <= i < j < |v.hits| ==>
                 Below(v.hits[i].resource, v.hits[j].resource) && v.hits[i].resource != v.hits[j].resource))
      && (v.NothingFound? <==> term != [] && forall r :: r in passwords ==> !Matches(term, r))
  {
    var v := SearchSpec(cs, passwords, answer);
    var term := Lower(Strip(answer));
    if v.NothingFound? {
      forall r | r in passwords ensures !Matches(term, r) {
        assert r !in Found(passwords, term);
      }
    }
    if v.SearchResults? {
      var found := Found(passwords, term);
      var names := SortedKeys(found);
      var some :| some in found;
      assert some in names;
      forall h ensures h in v.hits <==>
        h.resource in passwords && Matches(term, h.resource)
        && h.password == Decrypt(cs, passwords[h.resource])
        && h.category == passwords[h.resource].category
      {
        if h.resource in passwords && Matches(term, h.resource)
           && h.password == Decrypt(cs, passwords[h.resource])
           && h.category == passwords[h.resource].category {
          assert h.resource in names;
          var i :| 0 <= i < |names| && names[i] == h.resource;
          assert v.hits[i] == h;
        }
      }
    }
  }

  /** Example: the term "goo" finds "Google.com", whatever its case. */
  lemma SearchIgnoresCase(cs: string, rec: Record)
    ensures SearchSpec(cs, map["Google.com" := rec], "goo").SearchResults?
  {
    var term := Lower(Strip("goo"));
    assert Strip("goo") == "goo" by {
      StripTrimmed("goo");
    }
    assert term == "goo";
    var low := Lower("Google.com");
    assert low[..3] == "goo";
    assert Matches(term, "Google.com");
    assert "Google.com" in Found(map["Google.com" := rec], term);
  }

  // Everything, grouped.

  /** One category block of show_all_passwords. */
  datatype Group = Group(category: string, entries: seq<Entry>)

  datatype AllView = NoPasswords | AllGroups(groups: seq<Group>, total: nat)

  /** The categories that hold at least one record. */
  function UsedCategories(passwords: map<string, Record>): set<string> {
    set r | r in passwords :: passwords[r].category
  }

  function GroupsOf(cs: string, passwords: map<string, Record>, cats: seq<string>): seq<Group> {
    seq(|cats|, i requires 0 <= i < |cats| => Group(cats[i], ByCategory(cs, passwords, cats[i])))
  }

  /** Blocks built one by one are the blocks of the categories in that order. */
  lemma GroupsMatch(cs: string, passwords: map<string, Record>, cats: seq<string>, groups: seq<Group>)
    requires |groups| == |cats|
    requires forall j :: 0 <= j < |cats| ==> groups[j] == Group(cats[j], ByCategory(cs, passwords, cats[j]))
    ensures groups == GroupsOf(cs, passwords, cats)
  {
  }

  /** The blocks of show_all_passwords: one per used category, in ascending order. */
  function ShowGroups(cs: string, passwords: map<string, Record>): seq<Group> {
    GroupsOf(cs, passwords, SortedKeys(UsedCategories(passwords)))
  }

  function ShowAllSpec(cs: string, passwords: map<string, Record>): AllView {
    if passwords == map[] then NoPasswords
    else AllGroups(ShowGroups(cs, passwords), |passwords|)
  }

  /** The `categories` dict of show_all_passwords after filing the resources of `order`
      in that order: each resource appended to the list of its category, the list created
      on first use. */
  function Bucket(passwords: map<string, Record>, order: seq<string>): map<string, seq<string>>
    requires forall i :: 0 <= i < |order| ==> order[i] in passwords
  {
    if order == [] then map[]
    else
      var m := Bucket(passwords, order[..|order| - 1]);
      var r := order[|order| - 1];
      var c := passwords[r].category;
      m[c := (if c in m then m[c] else []) + [r]]
  }

  /** Filing one more resource appends it to its category's list, creating the list first
      when the category is new. */
  lemma BucketAppend(passwords: map<string, Record>, order: seq<string>, r: string)
    requires forall i :: 0 <= i < |order| ==> order[i] in passwords
    requires r in passwords
    ensures forall i :: 0 <= i < |order + [r]| ==> (order + [r])[i] in passwords
    ensures var m := Bucket(passwords, order); var c := passwords[r].category;
      var m' := if c in m then m else m[c := []];
      Bucket(passwords, order + [r]) == m'[c := m'[c] + [r]]
  {
    assert (order + [r])[..|order|] == order;
    var m := Bucket(passwords, order);
    var c := passwords[r].category;
    if c !in m {
      assert m[c := []][c := [r]] == m[c := [r]];
    }
  }

  /** The resources of `order` filed under `category`. */
  function FiledUnder(passwords: map<string, Record>, order: seq<string>, category: string): set<string>
    requires forall i :: 0 <= i < |order| ==> order[i] in passwords
  {
    set i | 0 <= i < |order| && passwords[order[i]].category == category :: order[i]
  }

  /** The categories used by the resources of `order`. */
  function UsedBy(passwords: map<string, Record>, order: seq<string>): set<string>
    requires forall i :: 0 <= i < |order| ==> order[i] in passwords
  {
    set i | 0 <= i < |order| :: passwords[order[i]].category
  }

  /** The dict holds a list for exactly the categories used by the filed resources, and
      each list holds exactly the filed resources of its category. */
  lemma {:induction false} BucketShape(passwords: map<string, Record>, order: seq<string>)
    requires forall i :: 0 <= i < |order| ==> order[i] in passwords
    ensures Bucket(passwords, order).Keys == UsedBy(passwords, order)
    ensures forall c :: c in Bucket(passwords, order) ==>
      Members(Bucket(passwords, order)[c]) == FiledUnder(passwords, order, c)
  {
    if order != [] {
      var init := order[..|order| - 1];
      var r := order[|order| - 1];
      BucketShape(passwords, init);
      assert UsedBy(passwords, order) == UsedBy(passwords, init) + {passwords[r].category} by {
        assert forall i :: 0 <= i < |init| ==> order[i] == init[i];
        assert passwords[order[|order| - 1]].category in UsedBy(passwords, order);
      }
      var b := Bucket(passwords, order);
      forall c | c in b ensures Members(b[c]) == FiledUnder(passwords, order, c) {
        assert forall i :: 0 <= i < |init| ==> order[i] == init[i];
        if c == passwords[r].category {
          assert FiledUnder(passwords, order, c) == FiledUnder(passwords, init, c) + {r} by {
            assert order[|order| - 1] == r;
          }
        } else {
          assert FiledUnder(passwords, order, c) == FiledUnder(passwords, init, c);
        }
      }
    }
  }

  /** Once every resource is filed, the keys are the used categories and each list holds
      exactly that category's resources. */
  lemma BucketAll(passwords: map<string, Record>, order: seq<string>)
    requires forall i :: 0 <= i < |order| ==> order[i] in passwords
    requires forall x :: x in passwords ==> x in order
    ensures Bucket(passwords, order).Keys == UsedCategories(passwords)
    ensures forall c :: c in Bucket(passwords, order) ==> Members(Bucket(passwords, order)[c]) == InCategory(passwords, c)
  {
    BucketShape(passwords, order);
    var b := Bucket(passwords, order);
    forall c | c in UsedCategories(passwords) ensures c in UsedBy(passwords, order) {
      var x :| x in passwords && passwords[x].category == c;
      var i :| 0 <= i < |order| && order[i] == x;
    }
    forall c | c in b ensures Members(b[c]) == InCategory(passwords, c) {
      forall x | x in InCategory(passwords, c) ensures x in FiledUnder(passwords, order, c) {
        var i :| 0 <= i < |order| && order[i] == x;
      }
    }
  }

  /** Part way through the filing loop: `order` lists the resources filed so far, `rest`
      the ones still to file. */
  predicate Filing(passwords: map<string, Record>, order: seq<string>, rest: set<string>) {
    && rest <= passwords.Keys
    && (forall i :: 0 <= i < |order| ==> order[i] in passwords)
    && (forall x :: x in passwords ==> (x in order <==> x !in rest))
  }

  lemma FilingStep(passwords: map<string, Record>, order: seq<string>, rest: set<string>, r: string)
    requires Filing(passwords, order, rest) && r in rest
    ensures Filing(passwords, order + [r], rest - {r})
  {
  }

  /** The first loop of show_all_passwords, which files every resource under its category:
      afterwards the keys are the used categories and each list holds exactly the
      resources of its category. */
  method FileByCategory(passwords: map<string, Record>) returns (categories: map<string, seq<string>>)
    ensures categories.Keys == UsedCategories(passwords)
    ensures forall c :: c in categories ==> Members(categories[c]) == InCategory(passwords, c)
  {
    categories := map[];
    var rest := passwords.Keys;
    ghost var order: seq<string> := [];
    while rest != {}
      invariant Filing(passwords, order, rest)
      invariant categories == Bucket(passwords, order)
      decreases |rest|
    {
      var r :| r in rest;
      var c := passwords[r].category;
      FilingStep(passwords, order, rest, r);
      BucketAppend(passwords, order, r);
      if c !in categories {
        categories := categories[c := []];
      }
      categories := categories[c := categories[c] + [r]];
      rest := rest - {r};
      order := order + [r];
    }
    BucketAll(passwords, order);
  }

  /** Listing a category's filed resources in sorted order lists that category. */
  lemma FiledListing(cs: string, passwords: map<string, Record>, filed: seq<string>, category: string)
    requires Members(filed) == InCategory(passwords, category)
    ensures forall i :: 0 <= i < |SortedKeys(Members(filed))| ==> SortedKeys(Members(filed))[i] in passwords
    ensures Listing(cs, passwords, SortedKeys(Members(filed))) == ByCategory(cs, passwords, category)
  {
  }

  /** The second loop of show_all_passwords: one block per category of `cats`, listing
      the filed resources of that category in sorted order. */
  method ListGroups(cs: string, passwords: map<string, Record>, categories: map<string, seq<string>>,
                    cats: seq<string>) returns (groups: seq<Group>)
    requires forall i :: 0 <= i < |cats| ==>
      cats[i] in categories && Members(categories[cats[i]]) == InCategory(passwords, cats[i])
    ensures groups == GroupsOf(cs, passwords, cats)
  {
    groups := [];
    for i := 0 to |cats|
      invariant |groups| == i
      invariant forall j :: 0 <= j < i ==> groups[j] == Group(cats[j], ByCategory(cs, passwords, cats[j]))
    {
      var c := cats[i];
      FiledListing(cs, passwords, categories[c], c);
      var entries := Listing(cs, passwords, SortedKeys(Members(categories[c])));
      groups := groups + [Group(c, entries)];
    }
    GroupsMatch(cs, passwords, cats, groups);
  }

  /** show_all_passwords: the resources filed by category, then one block per category
      in ascending order. */
  method ShowAll(cs: string, passwords: map<string, Record>) returns (v: AllView)
    ensures v == ShowAllSpec(cs, passwords)
  {
    if passwords == map[] {
      return NoPasswords;
    }
    var categories := FileByCategory(passwords);
    var cats := SortedKeys(categories.Keys);
    var groups := ListGroups(cs, passwords, categories, cats);
    v := AllGroups(groups, |passwords|);
  }

  /** Each block of show_all_passwords is the listing of its category and is never empty. */
  lemma GroupsNonEmpty(cs: string, passwords: map<string, Record>)
    ensures forall i :: 0 <= i < |ShowGroups(cs, passwords)| ==>
      ShowGroups(cs, passwords)[i].entries == ByCategory(cs, passwords, ShowGroups(cs, passwords)[i].category)
      && ShowGroups(cs, passwords)[i].entries != []
  {
    var cats := SortedKeys(UsedCategories(passwords));
    var gs := ShowGroups(cs, passwords);
    forall i | 0 <= i < |gs|
      ensures gs[i].entries == ByCategory(cs, passwords, gs[i].category) && gs[i].entries != []
    {
      assert gs[i] == Group(cats[i], ByCategory(cs, passwords, cats[i]));
      ByCategoryExact(cs, passwords, cats[i]);
      var r :| r in passwords && passwords[r].category == cats[i];
      assert r in InCategory(passwords, cats[i]);
    }
  }

  /** Every record is shown in the block of its own category. */
  lemma EveryRecordShown(cs: string, passwords: map<string, Record>, r: string)
    requires r in passwords
    ensures exists i ::
      && 0 <= i < |ShowGroups(cs, passwords)|
      && ShowGroups(cs, passwords)[i].category == passwords[r].category
      && Entry(r, Decrypt(cs, passwords[r])) in ShowGroups(cs, passwords)[i].entries
  {
    var cats := SortedKeys(UsedCategories(passwords));
    var c := passwords[r].category;
    assert c in UsedCategories(passwords);
    var i :| 0 <= i < |cats| && cats[i] == c;
    ByCategoryExact(cs, passwords, c);
    var gs := ShowGroups(cs, passwords);
    assert gs[i] == Group(c, ByCategory(cs, passwords, c));
    assert Entry(r, Decrypt(cs, passwords[r])) in gs[i].entries;
  }

  /** No line is shown in two blocks. */
  lemma NoRecordTwice(cs: string, passwords: map<string, Record>, i: int, k: int, e: Entry)
    requires 0 <= i < |ShowGroups(cs, passwords)| && 0 <= k < |ShowGroups(cs, passwords)|
    requires e in ShowGroups(cs, passwords)[i].entries && e in ShowGroups(cs, passwords)[k].entries
    ensures i == k
  {
    var cats := SortedKeys(UsedCategories(passwords));
    var gs := ShowGroups(cs, passwords);
    assert gs[i] == Group(cats[i], ByCategory(cs, passwords, cats[i]));
    assert gs[k] == Group(cats[k], ByCategory(cs, passwords, cats[k]));
    ByCategoryExact(cs, passwords, cats[i]);
    ByCategoryExact(cs, passwords, cats[k]);
  }

  /** The blocks come in strictly ascending order of category. */
  lemma GroupsSorted(cs: string, passwords: map<string, Record>)
    ensures forall i, j :: 0 <= i < j < |ShowGroups(cs, passwords)| ==>
      Below(ShowGroups(cs, passwords)[i].category, ShowGroups(cs, passwords)[j].category)
      && ShowGroups(cs, passwords)[i].category != ShowGroups(cs, passwords)[j].category
  {
    var cats := SortedKeys(UsedCategories(passwords));
    var gs := ShowGroups(cs, passwords);
    assert forall i :: 0 <= i < |gs| ==> gs[i].category == cats[i];
  }
}
