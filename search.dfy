/** The `search` action of app/Http/Controllers/ContactController.php: the
    caller's contacts filtered by name, email and phone, then paginated. */
module ContactSearch {
  import opened Common
  import opened Contacts

  /** The query string of a search request. Every key may be missing. */
  datatype SearchQuery = SearchQuery(
    name: Option<string>,
    email: Option<string>,
    phone: Option<string>,
    page: Option<int>,
    limit: Option<int>)

  /** `input('page', 1)` and `input('limit', 10)`. */
  const DefaultPage: nat := 1
  const DefaultLimit: nat := 10
  /** The per-page size of an Eloquent model, which `paginate` falls back to
      when it is handed a falsy page size. */
  const ModelPerPage: nat := 15

  /** The filter closure. A filter takes part only when its input is truthy;
      the name filter accepts a match in the first or in the last name. */
  predicate MatchesFilters(c: Contact, q: SearchQuery)
  {
    && (Truthy(q.name) ==> Like(Some(c.firstName), q.name.value) || Like(c.lastName, q.name.value))
    && (Truthy(q.email) ==> Like(c.email, q.email.value))
    && (Truthy(q.phone) ==> Like(c.phone, q.phone.value))
  }

  /** `where('userId', user)` conjoined with the filters, in table order. */
  function Matching(rows: seq<Contact>, userId: nat, q: SearchQuery): (matches: seq<Contact>)
    ensures |matches| <= |OwnedBy(rows, userId)|
    ensures forall i :: 0 <= i < |matches| ==> matches[i].userId == userId && MatchesFilters(matches[i], q)
  {
    if rows == [] then []
    else if rows[0].userId == userId && MatchesFilters(rows[0], q) then [rows[0]] + Matching(rows[1..], userId, q)
    else Matching(rows[1..], userId, q)
  }

  /** A row is among the matches exactly when it is in the table, belongs to
      the caller and passes every applicable filter. */
  lemma {:induction false} MatchingMembers(rows: seq<Contact>, userId: nat, q: SearchQuery)
    ensures forall c :: c in Matching(rows, userId, q) <==> c in rows && c.userId == userId && MatchesFilters(c, q)
  {
    if rows != [] {
      MatchingMembers(rows[1..], userId, q);
      assert rows == [rows[0]] + rows[1..];
    }
  }

  /** A falsy input takes no part in the search: the filters behave exactly as
      if the key were missing from the query string. */
  lemma FalsyFiltersIgnored(c: Contact, q: SearchQuery)
    ensures !Truthy(q.name) ==> (MatchesFilters(c, q) <==> MatchesFilters(c, q.(name := None)))
    ensures !Truthy(q.email) ==> (MatchesFilters(c, q) <==> MatchesFilters(c, q.(email := None)))
    ensures !Truthy(q.phone) ==> (MatchesFilters(c, q) <==> MatchesFilters(c, q.(phone := None)))
  {
  }

  /** A truthy name input does filter: a contact with an empty first name and
      no last name fails it. */
  lemma TruthyNameConstrains(q: SearchQuery)
    requires Truthy(q.name)
    ensures exists c :: !MatchesFilters(c, q)
  {
    var c := Contact(0, "", None, None, None, 0);
    assert !OccursAt(c.firstName, q.name.value, 0);
    assert !MatchesFilters(c, q);
  }

  /** A truthy email input does filter: a contact without an email fails it. */
  lemma TruthyEmailConstrains(q: SearchQuery)
    requires Truthy(q.email)
    ensures exists c :: !MatchesFilters(c, q)
  {
    var c := Contact(0, "", None, None, None, 0);
    assert !MatchesFilters(c, q);
  }

  /** A truthy phone input does filter: a contact without a phone fails it. */
  lemma TruthyPhoneConstrains(q: SearchQuery)
    requires Truthy(q.phone)
    ensures exists c :: !MatchesFilters(c, q)
  {
    var c := Contact(0, "", None, None, None, 0);
    assert !MatchesFilters(c, q);
  }

  /** Matching keeps table order and takes each row on its own: the matches of
      two consecutive stretches of the table are the matches of each, in turn. */
  lemma {:induction false} MatchingConcat(a: seq<Contact>, b: seq<Contact>, userId: nat, q: SearchQuery)
    ensures Matching(a + b, userId, q) == Matching(a, userId, q) + Matching(b, userId, q)
  {
    if a != [] {
      assert (a + b)[1..] == a[1..] + b;
      MatchingConcat(a[1..], b, userId, q);
    } else {
      assert a + b == b;
    }
  }

  /** A single row is a match, once, exactly when it belongs to the caller and
      passes the filters. */
  lemma MatchingSingle(c: Contact, userId: nat, q: SearchQuery)
    ensures Matching([c], userId, q) == if c.userId == userId && MatchesFilters(c, q) then [c] else []
  {
    assert [c][1..] == [];
  }

  /** With no truthy filter the search lists every contact of the caller. */
  lemma {:induction false} NoFilterListsAllOwned(rows: seq<Contact>, userId: nat, q: SearchQuery)
    requires !Truthy(q.name) && !Truthy(q.email) && !Truthy(q.phone)
    ensures Matching(rows, userId, q) == OwnedBy(rows, userId)
  {
    if rows != [] {
      NoFilterListsAllOwned(rows[1..], userId, q);
    }
  }

  /** The filters only ever narrow the caller's own rows: they are applied to
      the caller's rows and never widen them. */
  lemma {:induction false} MatchingWithinOwned(rows: seq<Contact>, userId: nat, q: SearchQuery)
    ensures Matching(rows, userId, q) == Matching(OwnedBy(rows, userId), userId, q)
  {
    if rows != [] {
      MatchingWithinOwned(rows[1..], userId, q);
      if rows[0].userId == userId {
        var own := OwnedBy(rows, userId);
        assert own == [rows[0]] + OwnedBy(rows[1..], userId);
        assert own[1..] == OwnedBy(rows[1..], userId);
      }
    }
  }

  /** A negative page size is outside the model (see README). */
  predicate SupportedLimit(q: SearchQuery)
  {
    q.limit.Some? ==> q.limit.value >= 0
  }

  /** The page the paginator serves: the requested one, or the first when the
      request asks for none or for one below 1. */
  function CurrentPage(q: SearchQuery): (p: nat)
    ensures p >= 1
    ensures q.page.None? ==> p == DefaultPage
    ensures q.page.Some? && q.page.value >= 1 ==> p == q.page.value
    ensures q.page.Some? && q.page.value < 1 ==> p == 1
  {
    match q.page
    case None => DefaultPage
    case Some(p) => if p >= 1 then p else 1
  }

  /** The page size: the requested limit, 10 when none is given, and the
      model's 15 when the limit is 0. */
  function PerPage(q: SearchQuery): (n: nat)
    requires SupportedLimit(q)
    ensures n >= 1
    ensures q.limit.None? ==> n == DefaultLimit
    ensures q.limit.Some? && q.limit.value >= 1 ==> n == q.limit.value
    ensures q.limit == Some(0) ==> n == ModelPerPage
  {
    match q.limit
    case None => DefaultLimit
    case Some(l) => if l == 0 then ModelPerPage else l
  }

  /** The paginated answer: the rows of the page, the number of matching rows
      before slicing, the page number and the page size. */
  datatype ContactPage = ContactPage(data: seq<Contact>, total: nat, currentPage: nat, perPage: nat)

  function Min(a: int, b: int): int
  {
    if a <= b then a else b
  }

  /** First row of page `page` among all matches. */
  function Offset(page: nat, perPage: nat): nat
    requires page >= 1
  {
    (page - 1) * perPage
  }

  /** `search`: at most one page of the caller's matching contacts, together
      with the total number of matches and the page that was served. */
  function Search(rows: seq<Contact>, userId: nat, q: SearchQuery): (result: ContactPage)
    requires SupportedLimit(q)
    ensures result.total == |Matching(rows, userId, q)|
    ensures result.currentPage == CurrentPage(q) && result.perPage == PerPage(q)
    ensures |result.data| <= result.perPage && |result.data| <= result.total
    ensures forall i :: 0 <= i < |result.data| ==> result.data[i].userId == userId && MatchesFilters(result.data[i], q)
  {
    var matches := Matching(rows, userId, q);
    var page, size := CurrentPage(q), PerPage(q);
    var lo := Min(Offset(page, size), |matches|);
    var hi := Min(Offset(page, size) + size, |matches|);
    ContactPage(matches[lo..hi], |matches|, page, size)
  }

  /** Every row served belongs to the caller and is a row of the table. */
  lemma SearchServesOnlyOwnRows(rows: seq<Contact>, userId: nat, q: SearchQuery)
    requires SupportedLimit(q)
    ensures forall c :: c in Search(rows, userId, q).data ==> c in rows && c.userId == userId
  {
    var matches := Matching(rows, userId, q);
    MatchingMembers(rows, userId, q);
    var data := Search(rows, userId, q).data;
    forall c | c in data ensures c in rows && c.userId == userId {
      var i :| 0 <= i < |data| && data[i] == c;
      var page, size := CurrentPage(q), PerPage(q);
      assert c == matches[Min(Offset(page, size), |matches|) + i];
    }
  }

  /** The page is the slice of the matches that starts at
      `(page - 1) * perPage`, and it is full unless the matches run out. */
  lemma PageIsSlice(rows: seq<Contact>, userId: nat, q: SearchQuery)
    requires SupportedLimit(q)
    ensures var result := Search(rows, userId, q);
            var matches := Matching(rows, userId, q);
            var offset := Offset(result.currentPage, result.perPage);
            && |result.data| == (if offset >= result.total then 0 else Min(result.perPage, result.total - offset))
            && forall k :: 0 <= k < |result.data| ==> result.data[k] == matches[offset + k]
  {
  }

  /** Every match is served: match `k` is at position `position` of page
      `page`, the one page whose range `[(page - 1) * perPage, page * perPage)`
      contains `k`. */
  lemma EveryMatchOnItsPage(rows: seq<Contact>, userId: nat, q: SearchQuery, k: nat)
    returns (page: nat, position: nat)
    requires SupportedLimit(q)
    requires k < |Matching(rows, userId, q)|
    ensures page >= 1 && position < PerPage(q) && Offset(page, PerPage(q)) + position == k
    ensures var onPage := Search(rows, userId, q.(page := Some(page)));
            && onPage.currentPage == page
            && position < |onPage.data|
            && onPage.data[position] == Matching(rows, userId, q)[k]
  {
    page, position := PositionOnPage(k, PerPage(q));
    MatchAtPagePosition(rows, userId, q, page, position);
  }

  /** Position `r` of page `page` holds match number `(page - 1) * perPage + r`,
      whenever that match exists. */
  lemma MatchAtPagePosition(rows: seq<Contact>, userId: nat, q: SearchQuery, page: nat, r: nat)
    requires SupportedLimit(q)
    requires page >= 1 && r < PerPage(q)
    requires Offset(page, PerPage(q)) + r < |Matching(rows, userId, q)|
    ensures var onPage := Search(rows, userId, q.(page := Some(page)));
            && onPage.currentPage == page
            && r < |onPage.data|
            && onPage.data[r] == Matching(rows, userId, q)[Offset(page, PerPage(q)) + r]
  {
    var q' := q.(page := Some(page));
    MatchingSameFilters(rows, userId, q, q');
    PageIsSlice(rows, userId, q');
  }

  /** Position `k` of the matches lies on page `k / size + 1`, at offset
      `k % size` within it. */
  lemma PositionOnPage(k: nat, size: nat) returns (page: nat, position: nat)
    requires size >= 1
    ensures page == k / size + 1 && position == k % size
    ensures page >= 1 && position < size && Offset(page, size) + position == k
  {
    page, position := k / size + 1, k % size;
  }

  /** The page and limit take no part in filtering. */
  lemma {:induction false} MatchingSameFilters(rows: seq<Contact>, userId: nat, q: SearchQuery, q': SearchQuery)
    requires q.name == q'.name && q.email == q'.email && q.phone == q'.phone
    ensures Matching(rows, userId, q) == Matching(rows, userId, q')
  {
    if rows != [] {
      MatchingSameFilters(rows[1..], userId, q, q');
    }
  }

  /** Without page and limit the search serves the first ten matches. */
  lemma DefaultsServeFirstTen(rows: seq<Contact>, userId: nat, q: SearchQuery)
    requires q.page.None? && q.limit.None?
    ensures Search(rows, userId, q).currentPage == 1
    ensures Search(rows, userId, q).perPage == 10
    ensures Search(rows, userId, q).data == Matching(rows, userId, q)[..Min(10, |Matching(rows, userId, q)|)]
  {
  }

  /** No match is a successful empty page with total 0. */
  lemma {:induction false} NoMatchEmptyPage(rows: seq<Contact>, userId: nat, q: SearchQuery)
    requires SupportedLimit(q)
    requires forall c :: c in rows && c.userId == userId ==> !MatchesFilters(c, q)
    ensures Search(rows, userId, q).data == []
    ensures Search(rows, userId, q).total == 0
  {
    if rows != [] {
      assert rows[0] in rows;
      forall c | c in rows[1..] ensures c in rows { }
      NoMatchEmptyPage(rows[1..], userId, q);
    }
  }
}
