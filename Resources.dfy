/**
 * The resources table and the reviews table as values, and the pure parts of the resource
 * methods: rating clamp, description normalisation, staff updates, identifier format,
 * duplicate lookup, rating queries and the autocomplete choice list.
 *
 * The table is a `JsMap` keyed by resource id whose key order is the order rows are read
 * back in (insertion order).
 */
module Resources {
  import opened Options
  import opened JsMaps
  import opened Text

  datatype Status = Pending | Active | Deleted

  /** One row of `resources`; `staffActionAt` and `createdAt` are Unix seconds. */
  datatype Resource = Resource(
    id: string,
    title: string,
    tag: string,
    url: string,
    description: Option<string>,
    author: string,
    createdAt: int,
    staffActionAt: Option<int>,
    staffActionBy: Option<string>,
    status: Status)

  /** One row of `reviews`. */
  datatype Review = Review(resourceId: string, reviewer: string, rating: int, comment: string, createdAt: int)

  /** An autocomplete choice: the title shown and the id submitted. */
  datatype Choice = Choice(name: string, value: string)

  /** The table's invariant: a valid map whose every row is stored under its own id. */
  ghost predicate TableOk(t: JsMap<Resource>) {
    t.Valid() && forall k :: k in t.entries ==> t.entries[k].id == k
  }

  /** `Math.floor(Date.now() / 1000)` for a clock reading in milliseconds. */
  function Seconds(nowMs: nat): (s: nat)
    ensures s * 1000 <= nowMs < (s + 1) * 1000
  {
    nowMs / 1000
  }

  /** `getResource`: the row with that id, or `null`. */
  function GetResource(t: JsMap<Resource>, id: string): (r: Option<Resource>)
    requires TableOk(t)
    ensures r.Some? <==> id in t.keys
    ensures r.Some? ==> r.value.id == id && r.value in t.Values()
  {
    if t.Has(id) then
      ValuesAreEntries(t, t.entries[id]);
      Some(t.entries[id])
    else None
  }

  /** `Math.max(1, Math.min(5, rating))`. */
  function ClampRating(rating: int): (r: int)
    ensures 1 <= r <= 5
    ensures 1 <= rating <= 5 ==> r == rating
    ensures rating < 1 ==> r == 1
    ensures rating > 5 ==> r == 5
  {
    if rating > 5 then 5 else if rating < 1 then 1 else rating
  }

  /** The strings whose lower-case form is `none`. */
  predicate SpellsNone(d: string) {
    |d| == 4 && (d[0] == 'n' || d[0] == 'N') && (d[1] == 'o' || d[1] == 'O')
    && (d[2] == 'n' || d[2] == 'N') && (d[3] == 'e' || d[3] == 'E')
  }

  /** `newDescription.toLowerCase() === 'none' ? null : newDescription`. */
  function NormalizeDescription(d: string): (r: Option<string>)
    ensures r.None? <==> SpellsNone(d)
    ensures r.Some? ==> r.value == d
  {
    LowerAt(d);
    assert Lower(d) == "none" ==> |d| == 4 && forall i :: 0 <= i < 4 ==> Lower(d)[i] == "none"[i];
    if Lower(d) == "none" then None else Some(d)
  }

  /** The one column a staff action writes besides the two staff columns. */
  datatype Change =
    | SetStatus(status: Status)
    | SetTitle(title: string)
    | SetTag(tag: string)
    | SetDescription(description: Option<string>)
    | SetUrl(url: string)
    | SetAuthor(author: string)

  /** A staff `UPDATE`: the changed column, `staff_action_by` and `staff_action_at`, and nothing else. */
  function StaffUpdate(r: Resource, change: Change, staff: string, at: int): (r': Resource)
    ensures r'.id == r.id && r'.createdAt == r.createdAt
    ensures r'.staffActionBy == Some(staff) && r'.staffActionAt == Some(at)
    ensures r'.status == (if change.SetStatus? then change.status else r.status)
    ensures r'.title == (if change.SetTitle? then change.title else r.title)
    ensures r'.tag == (if change.SetTag? then change.tag else r.tag)
    ensures r'.description == (if change.SetDescription? then change.description else r.description)
    ensures r'.url == (if change.SetUrl? then change.url else r.url)
    ensures r'.author == (if change.SetAuthor? then change.author else r.author)
  {
    var stamped := r.(staffActionBy := Some(staff), staffActionAt := Some(at));
    match change
    case SetStatus(s) => stamped.(status := s)
    case SetTitle(v) => stamped.(title := v)
    case SetTag(v) => stamped.(tag := v)
    case SetDescription(v) => stamped.(description := v)
    case SetUrl(v) => stamped.(url := v)
    case SetAuthor(v) => stamped.(author := v)
  }

  /** The row `addTemporaryResource` inserts: pending, no staff action, `""` description stored as `null`. */
  function NewResource(id: string, title: string, tag: string, url: string, description: string,
                       author: string, createdAt: int): (r: Resource)
    ensures r.id == id && r.title == title && r.tag == tag && r.url == url && r.author == author
    ensures r.status == Pending && r.createdAt == createdAt
    ensures r.staffActionAt == None && r.staffActionBy == None
    ensures r.description == (if description == "" then None else Some(description))
  {
    Resource(id, title, tag, url, if description == "" then None else Some(description),
             author, createdAt, None, None, Pending)
  }

  /* Resource identifiers: two capital letters followed by three digits. */

  const UPPER: string := "ABCDEFGHIJKLMNOPQRSTUVWXYZ"
  const DIGITS: string := "0123456789"

  /** One round of `Math.floor(Math.random() * n)` draws: two letter and three digit indices. */
  datatype Draw = Draw(l1: nat, l2: nat, d1: nat, d2: nat, d3: nat)

  predicate ValidDraw(d: Draw) {
    d.l1 < 26 && d.l2 < 26 && d.d1 < 10 && d.d2 < 10 && d.d3 < 10
  }

  predicate IsUpper(c: char) {
    'A' <= c <= 'Z'
  }

  predicate IsDigit(c: char) {
    '0' <= c <= '9'
  }

  predicate IsResourceId(s: string) {
    |s| == 5 && IsUpper(s[0]) && IsUpper(s[1]) && IsDigit(s[2]) && IsDigit(s[3]) && IsDigit(s[4])
  }

  /** The alphabet strings spell the letters and digits in code-point order. */
  lemma Alphabets()
    ensures |UPPER| == 26 && forall k :: 0 <= k < 26 ==> UPPER[k] == ('A' as int + k) as char
    ensures |DIGITS| == 10 && forall k :: 0 <= k < 10 ==> DIGITS[k] == ('0' as int + k) as char
  {
  }

  /** `upperString.charAt(k)`. */
  function Letter(k: nat): (c: char)
    requires k < 26
    ensures IsUpper(c) && c as int - 'A' as int == k
  {
    Alphabets();
    UPPER[k]
  }

  /** `numberString.charAt(k)`. */
  function Digit(k: nat): (c: char)
    requires k < 10
    ensures IsDigit(c) && c as int - '0' as int == k
  {
    Alphabets();
    DIGITS[k]
  }

  /** The identifier a draw spells. */
  function FormatId(d: Draw): (s: string)
    requires ValidDraw(d)
    ensures IsResourceId(s)
  {
    [Letter(d.l1), Letter(d.l2), Digit(d.d1), Digit(d.d2), Digit(d.d3)]
  }

  /** The draw that spells an identifier. */
  function ParseId(s: string): (d: Draw)
    requires IsResourceId(s)
    ensures ValidDraw(d)
  {
    Draw(s[0] as int - 'A' as int, s[1] as int - 'A' as int,
         s[2] as int - '0' as int, s[3] as int - '0' as int, s[4] as int - '0' as int)
  }

  /** Distinct draws spell distinct identifiers. */
  lemma ParseFormatId(d: Draw)
    requires ValidDraw(d)
    ensures ParseId(FormatId(d)) == d
  {
    Alphabets();
  }

  /** Every identifier of the format is spelled by some draw. */
  lemma FormatParseId(s: string)
    requires IsResourceId(s)
    ensures FormatId(ParseId(s)) == s
  {
    Alphabets();
  }

  /** The index of the first draw whose identifier is not among `existing`. */
  function FirstFresh(draws: seq<Draw>, existing: seq<string>): (i: nat)
    requires forall j :: 0 <= j < |draws| ==> ValidDraw(draws[j])
    requires exists j :: 0 <= j < |draws| && FormatId(draws[j]) !in existing
    ensures i < |draws| && FormatId(draws[i]) !in existing
    ensures forall j {:trigger FormatId(draws[j])} :: 0 <= j < i ==> FormatId(draws[j]) in existing
  {
    if FormatId(draws[0]) !in existing then 0
    else
      var j :| 0 <= j < |draws| && FormatId(draws[j]) !in existing;
      assert FormatId(draws[1..][j - 1]) !in existing;
      1 + FirstFresh(draws[1..], existing)
  }

  /* checkDuplicate */

  /** The columns a duplicate check may compare. */
  predicate AllowedField(field: string) {
    field == "url" || field == "title" || field == "tag" || field == "author"
  }

  function Column(r: Resource, field: string): string
    requires AllowedField(field)
  {
    if field == "url" then r.url
    else if field == "title" then r.title
    else if field == "tag" then r.tag
    else r.author
  }

  predicate DuplicateOf(r: Resource, field: string, value: string)
    requires AllowedField(field)
  {
    r.status == Active && Column(r, field) == value
  }

  /** The id of the first active row whose column equals `value`. */
  function FirstDuplicate(rows: seq<Resource>, field: string, value: string): (r: Option<string>)
    requires AllowedField(field)
    ensures r.None? <==> forall i :: 0 <= i < |rows| ==> !DuplicateOf(rows[i], field, value)
    ensures r.Some? ==> exists i :: (0 <= i < |rows| && DuplicateOf(rows[i], field, value) && rows[i].id == r.value
      && forall j :: 0 <= j < i ==> !DuplicateOf(rows[j], field, value))
  {
    if rows == [] then None
    else if DuplicateOf(rows[0], field, value) then Some(rows[0].id)
    else
      var r := FirstDuplicate(rows[1..], field, value);
      assert forall i :: 0 < i < |rows| ==> rows[i] == rows[1..][i - 1];
      r
  }

  /**
   * `checkDuplicate`: a field outside url/title/tag/author is refused (`false`); otherwise the
   * id of the first active row whose field equals the value, or `false` when there is none.
   */
  function CheckDuplicate(rows: seq<Resource>, field: string, value: string): (r: Option<string>)
    ensures !AllowedField(field) ==> r.None?
    ensures AllowedField(field) ==> r == FirstDuplicate(rows, field, value)
  {
    if AllowedField(field) then FirstDuplicate(rows, field, value) else None
  }

  /* Reviews */

  predicate ReviewBy(v: Review, resourceId: string, reviewer: string) {
    v.resourceId == resourceId && v.reviewer == reviewer
  }

  /** `hasRated`: whether some review of the resource is by the user. */
  function HasRated(reviews: seq<Review>, resourceId: string, reviewer: string): (b: bool)
    ensures b <==> exists i :: 0 <= i < |reviews| && ReviewBy(reviews[i], resourceId, reviewer)
  {
    if reviews == [] then false
    else if ReviewBy(reviews[0], resourceId, reviewer) then true
    else
      var b := HasRated(reviews[1..], resourceId, reviewer);
      assert forall i :: 0 < i < |reviews| ==> reviews[i] == reviews[1..][i - 1];
      b
  }

  /** The ratings given to one resource, in insertion order. */
  function RatingsOf(reviews: seq<Review>, resourceId: string): (rs: seq<int>)
    ensures |rs| <= |reviews|
    ensures forall x :: x in rs ==> exists i :: 0 <= i < |reviews| && reviews[i].resourceId == resourceId && reviews[i].rating == x
    ensures forall i :: 0 <= i < |reviews| && reviews[i].resourceId == resourceId ==> reviews[i].rating in rs
  {
    if reviews == [] then []
    else
      var rest := RatingsOf(reviews[1..], resourceId);
      assert forall i :: 0 < i < |reviews| ==> reviews[i] == reviews[1..][i - 1];
      (if reviews[0].resourceId == resourceId then [reviews[0].rating] else []) + rest
  }

  /** A review added at the end adds its rating at the end, when it is about this resource. */
  lemma {:induction false} RatingsOfAppend(reviews: seq<Review>, v: Review, resourceId: string)
    ensures RatingsOf(reviews + [v], resourceId)
      == RatingsOf(reviews, resourceId) + (if v.resourceId == resourceId then [v.rating] else [])
  {
    if reviews == [] {
      assert [] + [v] == [v];
      assert [v][1..] == [];
    } else {
      assert (reviews + [v])[1..] == reviews[1..] + [v];
      RatingsOfAppend(reviews[1..], v, resourceId);
    }
  }

  function Sum(rs: seq<int>): int {
    if rs == [] then 0 else rs[0] + Sum(rs[1..])
  }

  /** `getAverageRating`: `"Unrated"` without reviews, else the mean `total / count`. */
  datatype AverageRating = Unrated | Mean(total: int, count: nat)

  function GetAverageRating(reviews: seq<Review>, resourceId: string): (a: AverageRating)
    ensures a.Unrated? <==> forall i :: 0 <= i < |reviews| ==> reviews[i].resourceId != resourceId
    ensures a.Mean? ==> a.count > 0 && a.total == Sum(RatingsOf(reviews, resourceId))
    ensures a.Mean? ==> a.count == |RatingsOf(reviews, resourceId)|
  {
    var rs := RatingsOf(reviews, resourceId);
    RatingsOfEmpty(reviews, resourceId);
    if |rs| == 0 then Unrated else Mean(Sum(rs), |rs|)
  }

  lemma {:induction false} RatingsOfEmpty(reviews: seq<Review>, resourceId: string)
    ensures RatingsOf(reviews, resourceId) == [] <==> forall i :: 0 <= i < |reviews| ==> reviews[i].resourceId != resourceId
  {
    if reviews != [] {
      RatingsOfEmpty(reviews[1..], resourceId);
      if reviews[0].resourceId != resourceId {
        forall i | 0 < i < |reviews| ensures reviews[i] == reviews[1..][i - 1] {
        }
      }
    }
  }

  lemma {:induction false} SumBounds(rs: seq<int>)
    requires forall k :: 0 <= k < |rs| ==> 1 <= rs[k] <= 5
    ensures |rs| <= Sum(rs) <= 5 * |rs|
  {
    if rs != [] {
      SumBounds(rs[1..]);
    }
  }

  /** Ratings are stored clamped, so any average lies between 1 and 5. */
  lemma AverageWithinBounds(reviews: seq<Review>, resourceId: string)
    requires forall i :: 0 <= i < |reviews| ==> 1 <= reviews[i].rating <= 5
    ensures var a := GetAverageRating(reviews, resourceId);
      a.Mean? ==> a.count <= a.total <= 5 * a.count
  {
    var rs := RatingsOf(reviews, resourceId);
    forall k | 0 <= k < |rs| ensures 1 <= rs[k] <= 5 {
      assert rs[k] in rs;
    }
    SumBounds(rs);
  }

  /* serveResources */

  /** The rows the first query selects: active ones, of the tag unless the tag is `ALL`. */
  predicate Listed(r: Resource, tag: string) {
    r.status == Active && (tag == "ALL" || r.tag == tag)
  }

  /** The selected rows as choices, in row order. */
  function ChoiceOf(r: Resource): Choice {
    Choice(r.title, r.id)
  }

  function ListedChoices(rows: seq<Resource>, tag: string): (cs: seq<Choice>)
    ensures |cs| <= |rows|
    ensures forall c :: c in cs ==> exists i :: 0 <= i < |rows| && Listed(rows[i], tag) && c == ChoiceOf(rows[i])
    ensures forall i :: 0 <= i < |rows| && Listed(rows[i], tag) ==> ChoiceOf(rows[i]) in cs
  {
    if rows == [] then []
    else
      var rest := ListedChoices(rows[1..], tag);
      assert forall i :: 0 < i < |rows| ==> rows[i] == rows[1..][i - 1];
      assert forall c :: c in rest ==> exists i :: 0 <= i < |rows| && Listed(rows[i], tag) && c == ChoiceOf(rows[i]) by {
        forall c | c in rest ensures exists i :: 0 <= i < |rows| && Listed(rows[i], tag) && c == ChoiceOf(rows[i]) {
          var i :| 0 <= i < |rows[1..]| && Listed(rows[1..][i], tag) && c == ChoiceOf(rows[1..][i]);
          assert rows[i + 1] == rows[1..][i];
        }
      }
      (if Listed(rows[0], tag) then [ChoiceOf(rows[0])] else []) + rest
  }

  /** A row appended to the table appends its choice when it is listed: choices keep row order. */
  lemma {:induction false} ListedChoicesAppend(rows: seq<Resource>, v: Resource, tag: string)
    ensures ListedChoices(rows + [v], tag)
      == ListedChoices(rows, tag) + (if Listed(v, tag) then [ChoiceOf(v)] else [])
  {
    if rows == [] {
      assert [] + [v] == [v];
      assert [v][1..] == [];
    } else {
      assert (rows + [v])[1..] == rows[1..] + [v];
      ListedChoicesAppend(rows[1..], v, tag);
    }
  }

  /** Whether the choice's id equals the search text, ignoring case. */
  predicate IdMatches(c: Choice, search: string) {
    Lower(c.value) == Lower(search)
  }

  /** `resources.find(...)`: the index of the first choice whose id matches the search. */
  function FindIdMatch(cs: seq<Choice>, search: string): (r: Option<nat>)
    ensures r.None? ==> forall i :: 0 <= i < |cs| ==> !IdMatches(cs[i], search)
    ensures r.Some? ==> (r.value < |cs| && IdMatches(cs[r.value], search)
      && forall j :: 0 <= j < r.value ==> !IdMatches(cs[j], search))
  {
    if cs == [] then None
    else if IdMatches(cs[0], search) then Some(0)
    else
      var r := FindIdMatch(cs[1..], search);
      if r.None? then
        assert forall i :: 0 < i < |cs| ==> cs[i] == cs[1..][i - 1];
        None
      else
        assert forall j :: 0 < j < r.value + 1 ==> cs[j] == cs[1..][j - 1];
        Some(r.value + 1)
  }

  /** `resources.filter(resource => resource.value !== id)`. */
  function WithoutId(cs: seq<Choice>, id: string): (r: seq<Choice>)
    ensures forall c :: c in r <==> c in cs && c.value != id
  {
    if cs == [] then []
    else (if cs[0].value != id then [cs[0]] else []) + WithoutId(cs[1..], id)
  }

  /** `list.slice(0, 25)`. */
  function Take25(cs: seq<Choice>): (r: seq<Choice>)
    ensures |r| <= 25 && r <= cs
    ensures |r| == if |cs| <= 25 then |cs| else 25
    ensures forall c :: c in r ==> c in cs
    ensures |cs| <= 25 ==> r == cs
  {
    if |cs| <= 25 then cs else cs[..25]
  }

  /**
   * The fuzzy title filter (`fuzzaldrin.filter`) is outside the model: the caller
   * supplies it, and it may only return candidates it was given.
   */
  ghost predicate FilterSelects(fuzzy: (seq<Choice>, string) -> seq<Choice>) {
    forall cs, q, c :: c in fuzzy(cs, q) ==> c in cs
  }

  /**
   * `serveResources`: the listed rows as choices; with a search text, an id match (ignoring
   * case) first, then the fuzzy filter's answer over the other rows; at most 25 in all.
   */
  function ServedChoices(rows: seq<Resource>, tag: string, search: string,
                         fuzzy: (seq<Choice>, string) -> seq<Choice>): (r: seq<Choice>)
    ensures |r| <= 25
    ensures search == "" ==> r == Take25(ListedChoices(rows, tag))
  {
    var listed := ListedChoices(rows, tag);
    if search == "" then Take25(listed)
    else
      match FindIdMatch(listed, search)
      case Some(i) => Take25([listed[i]] + fuzzy(WithoutId(listed, listed[i].value), search))
      case None => Take25(fuzzy(listed, search))
  }

  /** Every choice served is an active row of the requested tag (any tag for `ALL`). */
  lemma ServedChoicesAreListed(rows: seq<Resource>, tag: string, search: string,
                               fuzzy: (seq<Choice>, string) -> seq<Choice>)
    requires FilterSelects(fuzzy)
    ensures forall c :: c in ServedChoices(rows, tag, search, fuzzy) ==>
      exists i :: 0 <= i < |rows| && Listed(rows[i], tag) && c == ChoiceOf(rows[i])
  {
    var listed := ListedChoices(rows, tag);
    var r := ServedChoices(rows, tag, search, fuzzy);
    assert forall c :: c in r ==> c in listed by {
      if search != "" && FindIdMatch(listed, search).Some? {
        var i := FindIdMatch(listed, search).value;
        var rest := fuzzy(WithoutId(listed, listed[i].value), search);
        forall c | c in r ensures c in listed {
          assert c in [listed[i]] + rest;
          if c != listed[i] {
            assert c in rest;
          }
        }
      }
    }
  }

  /**
   * When the search text equals a listed id (ignoring case), that row's choice comes first
   * and no later choice carries the same id.
   */
  lemma ServedChoicesIdMatchFirst(rows: seq<Resource>, tag: string, search: string,
                                  fuzzy: (seq<Choice>, string) -> seq<Choice>)
    requires FilterSelects(fuzzy)
    requires search != "" && FindIdMatch(ListedChoices(rows, tag), search).Some?
    ensures var r := ServedChoices(rows, tag, search, fuzzy);
      && r != []
      && r[0] == ListedChoices(rows, tag)[FindIdMatch(ListedChoices(rows, tag), search).value]
      && IdMatches(r[0], search)
      && forall k :: 0 < k < |r| ==> r[k].value != r[0].value
  {
    var listed := ListedChoices(rows, tag);
    var i := FindIdMatch(listed, search).value;
    var rest := fuzzy(WithoutId(listed, listed[i].value), search);
    var all := [listed[i]] + rest;
    var r := Take25(all);
    forall k | 0 < k < |r| ensures r[k].value != listed[i].value {
      assert r[k] == all[k] && all[k] in rest;
    }
  }

  /* How staff actions show up in the queries. */

  /** In a well-formed table, the row read back with a given id is the one stored under it. */
  lemma RowsById(t: JsMap<Resource>, i: int)
    requires TableOk(t) && 0 <= i < |t.keys|
    ensures t.keys[i] in t.entries && t.Values()[i] == t.entries[t.keys[i]] && t.Values()[i].id == t.keys[i]
  {
  }

  /** Once approved, a resource is offered among the choices of every listing of its tag. */
  lemma ApprovedIsListed(t: JsMap<Resource>, id: string, staff: string, at: int)
    requires TableOk(t) && t.Has(id)
    ensures var r := StaffUpdate(t.entries[id], SetStatus(Active), staff, at);
      Choice(r.title, id) in ListedChoices(t.Set(id, r).Values(), r.tag)
      && Choice(r.title, id) in ListedChoices(t.Set(id, r).Values(), "ALL")
  {
    var r := StaffUpdate(t.entries[id], SetStatus(Active), staff, at);
    var t' := t.Set(id, r);
    assert id in t'.keys;
    var i :| 0 <= i < |t'.keys| && t'.keys[i] == id;
    assert t'.Values()[i] == r;
  }

  /** Once deleted or declined, a resource is neither offered nor reported as a duplicate. */
  lemma DeletedIsHidden(t: JsMap<Resource>, id: string, staff: string, at: int, tag: string, field: string, value: string)
    requires TableOk(t) && t.Has(id)
    ensures var t' := t.Set(id, StaffUpdate(t.entries[id], SetStatus(Deleted), staff, at));
      && (forall c :: c in ListedChoices(t'.Values(), tag) ==> c.value != id)
      && CheckDuplicate(t'.Values(), field, value) != Some(id)
  {
    var t' := t.Set(id, StaffUpdate(t.entries[id], SetStatus(Deleted), staff, at));
    assert TableOk(t');
    var rows := t'.Values();
    forall i | 0 <= i < |rows| && rows[i].id == id ensures rows[i].status == Deleted {
      RowsById(t', i);
    }
  }
}
