/**
 * The blog app: categories and posts, the slug each gets when it is saved, the
 * comma-separated tag field of a post and the list it is read back as, the
 * order the site lists them in, and the sanitizer policy for a post body.
 *
 * Timestamps are integers (ticks of the database clock); a later time is a
 * larger integer.
 */
module Blog {
  import opened Wrappers
  import opened PyStr
  import Slugs
  import Timestamps
  import Ordering
  import AllowList
  import Projects

  datatype Status = Draft | Published

  /** A blog category (`name` is unique in the database). */
  class Category {
    var name: string
    var slug: string

    constructor (name: string)
      ensures this.name == name && slug == ""
    {
      this.name := name;
      this.slug := "";
    }

    /** `save()`: an empty slug becomes `slugify(name)`, a non-empty one is kept; `name` is untouched. */
    method Save(slugify: string -> string)
      modifies this`slug
      ensures slug == Slugs.SlugOnSave(old(slug), name, slugify)
    {
      if slug == "" {
        slug := slugify(name);
      }
    }
  }

  /** A blog post. `authorId` is the foreign key of the user who wrote it. */
  class Post {
    var title: string
    var slug: string
    var authorId: nat
    var excerpt: string
    var content: string
    var category: Category?
    var tags: string
    var featuredImage: Option<string>
    var status: Status
    var featured: bool
    var createdAt: Option<int>
    var updatedAt: Option<int>
    var publishedAt: Option<int>

    /**
     * A new, unsaved post: the fields without a default come from the author,
     * and the two automatic timestamps wait for the first save.
     */
    constructor (title: string, authorId: nat, excerpt: string, content: string)
      ensures this.title == title && this.authorId == authorId
      ensures this.excerpt == excerpt && this.content == content
      ensures slug == "" && category == null && tags == "" && featuredImage == None
      ensures status == Draft && !featured && publishedAt == None
      ensures createdAt == None && updatedAt == None
      ensures Timestamps.Consistent(createdAt, updatedAt)
    {
      this.title := title;
      this.slug := "";
      this.authorId := authorId;
      this.excerpt := excerpt;
      this.content := content;
      this.category := null;
      this.tags := "";
      this.featuredImage := None;
      this.status := Draft;
      this.featured := false;
      this.createdAt := None;
      this.updatedAt := None;
      this.publishedAt := None;
    }

    /**
     * `save()` at clock reading `now`: an empty slug becomes `slugify(title)`,
     * a non-empty one is kept; then the framework stamps `created_at` on the
     * first save and `updated_at` on every save. Every other field, including
     * `published_at`, keeps its value.
     */
    method Save(slugify: string -> string, now: int)
      modifies this`slug, this`createdAt, this`updatedAt
      ensures slug == Slugs.SlugOnSave(old(slug), title, slugify)
      ensures createdAt == Timestamps.AddedOnSave(old(createdAt), now)
      ensures updatedAt == Some(now)
      ensures old(Timestamps.Consistent(createdAt, updatedAt)) &&
              (old(updatedAt).Some? ==> old(updatedAt).value <= now) ==>
              Timestamps.Consistent(createdAt, updatedAt)
    {
      if slug == "" {
        slug := slugify(title);
      }
      if createdAt.None? {
        createdAt := Some(now);
      }
      updatedAt := Some(now);
    }

    /** `get_tags_list()`: the post's tags, read from its comma-separated `tags` field. */
    function TagsList(): (r: seq<string>)
      reads this
      ensures forall k :: 0 <= k < |r| ==> IsTag(r[k])
      ensures |r| <= Count(tags, ',') + 1
    {
      ParseTags(tags)
    }
  }

  // ---------------------------------------------------------------------------
  // Tags

  /** What a parsed tag looks like: non-empty, no surrounding whitespace, no comma. */
  predicate IsTag(t: string) {
    t != [] && IsStripped(t) && ',' !in t
  }

  /** `[piece.strip() for piece in pieces]` */
  function StripEach(pieces: seq<string>): (r: seq<string>) {
    seq(|pieces|, k requires 0 <= k < |pieces| => Strip(pieces[k]))
  }

  /** `[t for t in ts if t]`: the non-empty strings of `ts`, in order. */
  function DropEmpty(ts: seq<string>): (r: seq<string>)
    ensures |r| <= |ts|
    ensures forall k :: 0 <= k < |r| ==> r[k] != [] && r[k] in ts
  {
    if ts == [] then []
    else (if ts[0] != [] then [ts[0]] else []) + DropEmpty(ts[1..])
  }

  /** `get_tags_list`: `[tag.strip() for tag in tags.split(',') if tag.strip()]` */
  function ParseTags(tags: string): (r: seq<string>)
    ensures |r| <= Count(tags, ',') + 1
    ensures forall k :: 0 <= k < |r| ==> IsTag(r[k])
  {
    var pieces := Split(tags, ',');
    StrippedPiecesAreTags(pieces);
    DropEmpty(StripEach(pieces))
  }

  /** Every tag is its own strip: stripping a parsed tag again changes nothing. */
  lemma ParseTagsStripped(tags: string)
    ensures forall k :: 0 <= k < |ParseTags(tags)| ==> Strip(ParseTags(tags)[k]) == ParseTags(tags)[k]
  {
    var r := ParseTags(tags);
    forall k | 0 <= k < |r| ensures Strip(r[k]) == r[k] {
      StripOfStripped(r[k]);
    }
  }

  /** A non-empty stripped comma-free piece is a tag. */
  lemma StrippedPiecesAreTags(pieces: seq<string>)
    requires forall m :: 0 <= m < |pieces| ==> ',' !in pieces[m]
    ensures forall t :: t in StripEach(pieces) && t != [] ==> IsTag(t)
  {
    forall t | t in StripEach(pieces) && t != [] ensures IsTag(t) {
      var m :| 0 <= m < |pieces| && StripEach(pieces)[m] == t;
      if ',' in t {
        StripKeepsOnlyInputChars(pieces[m], ',');
      }
    }
  }

  /** Stripping two runs of pieces strips each, in turn. */
  lemma StripEachAppend(x: seq<string>, y: seq<string>)
    ensures StripEach(x + y) == StripEach(x) + StripEach(y)
  {}

  /** Dropping empty strings from two runs drops them from each, in turn. */
  lemma {:induction false} DropEmptyAppend(x: seq<string>, y: seq<string>)
    ensures DropEmpty(x + y) == DropEmpty(x) + DropEmpty(y)
  {
    if x == [] {
      assert x + y == y;
    } else {
      assert (x + y)[0] == x[0] && (x + y)[1..] == x[1..] + y;
      DropEmptyAppend(x[1..], y);
    }
  }

  /** `xs` with one added to every element. */
  function Shift(xs: seq<nat>): (r: seq<nat>)
    ensures |r| == |xs| && forall k :: 0 <= k < |xs| ==> r[k] == xs[k] + 1
  {
    seq(|xs|, k requires 0 <= k < |xs| => xs[k] + 1)
  }

  /** The positions of the non-empty strings of `ts`, left to right. */
  function NonEmptyPositions(ts: seq<string>): (idx: seq<nat>)
    ensures |idx| == |DropEmpty(ts)|
    ensures forall k :: 0 <= k < |idx| ==> idx[k] < |ts|
  {
    if ts == [] then []
    else (if ts[0] != [] then [0] else []) + Shift(NonEmptyPositions(ts[1..]))
  }

  /** The k-th kept string is the string at the k-th position. */
  lemma {:induction false} NonEmptyPositionsIndex(ts: seq<string>, k: nat)
    requires k < |DropEmpty(ts)|
    ensures DropEmpty(ts)[k] == ts[NonEmptyPositions(ts)[k]]
  {
    var rest, tail := DropEmpty(ts[1..]), Shift(NonEmptyPositions(ts[1..]));
    if ts[0] != [] {
      assert DropEmpty(ts) == [ts[0]] + rest;
      assert NonEmptyPositions(ts) == [0] + tail;
      if k > 0 {
        NonEmptyPositionsIndex(ts[1..], k - 1);
      }
    } else {
      assert DropEmpty(ts) == rest && NonEmptyPositions(ts) == tail;
      NonEmptyPositionsIndex(ts[1..], k);
    }
  }

  /** The positions increase strictly. */
  lemma {:induction false} NonEmptyPositionsIncreasing(ts: seq<string>)
    ensures forall k, l :: 0 <= k < l < |NonEmptyPositions(ts)| ==>
      NonEmptyPositions(ts)[k] < NonEmptyPositions(ts)[l]
  {
    if ts != [] {
      NonEmptyPositionsIncreasing(ts[1..]);
    }
  }

  /** Every non-empty string is at one of the positions. */
  lemma {:induction false} NonEmptyPositionsComplete(ts: seq<string>, m: nat)
    requires m < |ts| && ts[m] != []
    ensures m in NonEmptyPositions(ts)
  {
    if m > 0 {
      NonEmptyPositionsComplete(ts[1..], m - 1);
      var tail := NonEmptyPositions(ts[1..]);
      var k :| 0 <= k < |tail| && tail[k] == m - 1;
      assert Shift(tail)[k] == m;
    }
  }

  /**
   * Where each kept string comes from: the k-th result is `ts[idx[k]]`, the
   * positions increase strictly (the order is kept), and every non-empty
   * string of `ts` is at one of them (none is lost).
   */
  lemma DropEmptyPositions(ts: seq<string>) returns (idx: seq<nat>)
    ensures |idx| == |DropEmpty(ts)|
    ensures forall k :: 0 <= k < |idx| ==> idx[k] < |ts| && DropEmpty(ts)[k] == ts[idx[k]]
    ensures forall k, l :: 0 <= k < l < |idx| ==> idx[k] < idx[l]
    ensures forall m :: 0 <= m < |ts| && ts[m] != [] ==> m in idx
  {
    idx := NonEmptyPositions(ts);
    forall k | 0 <= k < |idx| ensures DropEmpty(ts)[k] == ts[idx[k]] {
      NonEmptyPositionsIndex(ts, k);
    }
    NonEmptyPositionsIncreasing(ts);
    forall m | 0 <= m < |ts| && ts[m] != [] ensures m in idx {
      NonEmptyPositionsComplete(ts, m);
    }
  }

  /**
   * The tags of a tag string, in order: exactly the comma-separated pieces that
   * are not blank, each stripped. Tag k is piece `idx[k]`, the positions
   * increase, and no non-blank piece is missing.
   */
  lemma ParseTagsPositions(tags: string) returns (idx: seq<nat>)
    ensures |idx| == |ParseTags(tags)|
    ensures forall k :: 0 <= k < |idx| ==>
      idx[k] < |Split(tags, ',')| && ParseTags(tags)[k] == Strip(Split(tags, ',')[idx[k]])
    ensures forall k, l :: 0 <= k < l < |idx| ==> idx[k] < idx[l]
    ensures forall m :: 0 <= m < |Split(tags, ',')| && Strip(Split(tags, ',')[m]) != [] ==> m in idx
  {
    idx := DropEmptyPositions(StripEach(Split(tags, ',')));
  }

  predicate AllBlank(pieces: seq<string>) {
    forall m :: 0 <= m < |pieces| ==> AllSpace(pieces[m])
  }

  /** Only commas and whitespace, as in `" , ,"`. */
  predicate OnlyCommasAndSpaces(s: string) {
    forall k :: 0 <= k < |s| ==> s[k] == ',' || IsSpace(s[k])
  }

  lemma AllBlankCons(p: string, ps: seq<string>)
    ensures AllBlank([p] + ps) <==> AllSpace(p) && AllBlank(ps)
  {
    var qs := [p] + ps;
    assert qs[0] == p;
    assert forall m :: 0 <= m < |ps| ==> qs[m + 1] == ps[m];
    if AllSpace(p) && AllBlank(ps) {
      forall m | 0 < m < |qs| ensures AllSpace(qs[m]) {
        assert qs[m] == ps[m - 1];
      }
    }
  }

  lemma OnlyCommasAndSpacesTail(s: string)
    requires s != []
    ensures OnlyCommasAndSpaces(s) <==> (s[0] == ',' || IsSpace(s[0])) && OnlyCommasAndSpaces(s[1..])
  {
    assert forall k :: 0 < k < |s| ==> s[k] == s[1..][k - 1];
  }

  /** Every piece of a split is blank exactly when the string holds only commas and whitespace. */
  lemma {:induction false} SplitPiecesBlank(s: string)
    ensures AllBlank(Split(s, ',')) <==> OnlyCommasAndSpaces(s)
  {
    if s != [] {
      SplitPiecesBlank(s[1..]);
      OnlyCommasAndSpacesTail(s);
      var rest := Split(s[1..], ',');
      if s[0] == ',' {
        AllBlankCons([], rest);
      } else {
        assert rest == [rest[0]] + rest[1..];
        AllBlankCons(rest[0], rest[1..]);
        AllBlankCons([s[0]] + rest[0], rest[1..]);
        AllSpaceCons(s[0], rest[0]);
      }
    }
  }

  /** Nothing is kept exactly when every string is empty. */
  lemma {:induction false} DropEmptyEmptyIff(ts: seq<string>)
    ensures DropEmpty(ts) == [] <==> forall m :: 0 <= m < |ts| ==> ts[m] == []
  {
    if ts != [] {
      DropEmptyEmptyIff(ts[1..]);
      assert forall m :: 0 < m < |ts| ==> ts[m] == ts[1..][m - 1];
    }
  }

  /** A tag string yields no tags exactly when it holds only commas and whitespace (the empty string included). */
  lemma ParseTagsEmptyIff(tags: string)
    ensures ParseTags(tags) == [] <==> OnlyCommasAndSpaces(tags)
  {
    var pieces := Split(tags, ',');
    var stripped := StripEach(pieces);
    assert ParseTags(tags) == DropEmpty(stripped);
    DropEmptyEmptyIff(stripped);
    forall m | 0 <= m < |pieces| ensures stripped[m] == [] <==> AllSpace(pieces[m]) {
      StripEmptyIff(pieces[m]);
    }
    assert (forall m :: 0 <= m < |stripped| ==> stripped[m] == []) <==> AllBlank(pieces);
    SplitPiecesBlank(tags);
  }

  /** The tags of two tag strings joined by a comma are the tags of the first, then those of the second. */
  lemma ParseTagsConcat(a: string, b: string)
    ensures ParseTags(a + "," + b) == ParseTags(a) + ParseTags(b)
  {
    var x, y := Split(a, ','), Split(b, ',');
    assert a + "," + b == a + [','] + b;
    SplitConcat(a, b, ',');
    assert ParseTags(a + "," + b) == DropEmpty(StripEach(x + y));
    StripEachAppend(x, y);
    DropEmptyAppend(StripEach(x), StripEach(y));
  }

  /** Writing a list of tags back as a comma-separated string and parsing it gives back the list. */
  lemma ParseTagsJoin(tags: seq<string>)
    requires forall k :: 0 <= k < |tags| ==> IsTag(tags[k])
    ensures ParseTags(Join(tags, ',')) == tags
  {
    if tags == [] {
      assert Split([], ',') == [[]];
      assert StripEach([[]]) == [[]];
    } else {
      var joined := Join(tags, ',');
      assert Split(joined, ',') == tags by { SplitJoin(tags, ','); }
      assert StripEach(tags) == tags by { StripEachOfStripped(tags); }
      assert DropEmpty(tags) == tags by { DropEmptyKeepsNonEmpty(tags); }
    }
  }

  /** Stripping strings that are already stripped changes nothing. */
  lemma StripEachOfStripped(ts: seq<string>)
    requires forall k :: 0 <= k < |ts| ==> IsStripped(ts[k])
    ensures StripEach(ts) == ts
  {
    forall k | 0 <= k < |ts| ensures Strip(ts[k]) == ts[k] {
      StripOfStripped(ts[k]);
    }
  }

  /** A run of non-empty strings loses nothing. */
  lemma {:induction false} DropEmptyKeepsNonEmpty(ts: seq<string>)
    requires forall k :: 0 <= k < |ts| ==> ts[k] != []
    ensures DropEmpty(ts) == ts
  {
    if ts != [] {
      DropEmptyKeepsNonEmpty(ts[1..]);
      assert ts == [ts[0]] + ts[1..];
    }
  }

  // ---------------------------------------------------------------------------
  // Ordering

  /** The fields of `Meta.ordering = ['-published_at', '-created_at']` in a saved post's row; an unpublished post has no `publishedAt`. */
  datatype PostKey = PostKey(publishedAt: Option<int>, createdAt: int)

  /**
   * `a` strictly precedes `b` when sorting publication times newest first.
   * Where a missing time goes depends on the database: `nullsFirst` holds for
   * PostgreSQL (missing times first in a descending sort) and not for SQLite.
   */
  predicate PublishedBefore(nullsFirst: bool, a: Option<int>, b: Option<int>) {
    match (a, b)
    case (Some(x), Some(y)) => x > y
    case (None, Some(_)) => nullsFirst
    case (Some(_), None) => !nullsFirst
    case (None, None) => false
  }

  /** Newer publication first; for equal publication times, the newer post first. */
  predicate PostBefore(nullsFirst: bool, a: PostKey, b: PostKey) {
    PublishedBefore(nullsFirst, a.publishedAt, b.publishedAt) ||
    (a.publishedAt == b.publishedAt && a.createdAt >= b.createdAt)
  }

  lemma PostOrderIsTotal(nullsFirst: bool)
    ensures Ordering.TotalPreorder((a, b) => PostBefore(nullsFirst, a, b))
  {}

  /**
   * A post listing is in display order exactly when, for any two posts, the
   * earlier one was published no earlier, unpublished posts are grouped at the
   * end the database puts them, and equal publication times go newest-created first.
   */
  lemma PostsInDisplayOrder(nullsFirst: bool, keys: seq<PostKey>)
    ensures Ordering.Sorted(keys, (a, b) => PostBefore(nullsFirst, a, b)) <==>
      forall i, j :: 0 <= i < j < |keys| ==>
        && (keys[i].publishedAt.Some? && keys[j].publishedAt.Some? ==>
              keys[i].publishedAt.value >= keys[j].publishedAt.value)
        && (nullsFirst ==> !(keys[i].publishedAt.Some? && keys[j].publishedAt.None?))
        && (!nullsFirst ==> !(keys[i].publishedAt.None? && keys[j].publishedAt.Some?))
        && (keys[i].publishedAt == keys[j].publishedAt ==> keys[i].createdAt >= keys[j].createdAt)
  {
    var before := (a, b) => PostBefore(nullsFirst, a, b);
    if Ordering.Sorted(keys, before) {
      PostOrderIsTotal(nullsFirst);
      Ordering.SortedPairwise(keys, before);
    }
  }

  /**
   * Categories are listed by name: a listing is in this order exactly when its
   * names ascend, and then two different names are never inverted.
   */
  lemma CategoriesInDisplayOrder(names: seq<string>)
    ensures Ordering.Sorted(names, Ordering.StringBefore) <==>
      forall i, j :: 0 <= i < j < |names| ==> Ordering.StringBefore(names[i], names[j])
    ensures Ordering.Sorted(names, Ordering.StringBefore) ==>
      forall i, j :: 0 <= i < j < |names| && names[i] != names[j] ==>
        !Ordering.StringBefore(names[j], names[i])
  {
    Ordering.StringOrderIsTotal();
    if Ordering.Sorted(names, Ordering.StringBefore) {
      Ordering.SortedPairwise(names, Ordering.StringBefore);
    }
  }

  // ---------------------------------------------------------------------------
  // Sanitizer policy

  /** The tags and per-tag attributes a post body may keep after sanitizing. */
  const ContentPolicy: AllowList.Policy := AllowList.Policy(
    { "p", "h1", "h2", "h3", "h4", "h5", "h6",
      "strong", "em", "a", "ul", "ol", "li",
      "blockquote", "code", "pre", "hr", "br",
      "table", "thead", "tbody", "tr", "th", "td",
      "img", "div", "span" },
    map[
      "a" := ["href", "title"],
      "img" := ["src", "alt", "title"],
      "code" := ["class"],
      "div" := ["class"],
      "span" := ["class"]
    ])

  /** Posts and case studies are sanitized with the same tags and the same attributes. */
  lemma ContentPolicyMatchesCaseStudyPolicy()
    ensures ContentPolicy == Projects.CaseStudyPolicy
  {}

  /** Hence the post policy is as safe as the case-study one. */
  lemma ContentPolicyIsSafe()
    ensures AllowList.Safe(ContentPolicy)
  {
    ContentPolicyMatchesCaseStudyPolicy();
    Projects.CaseStudyPolicyIsSafe();
  }
}
