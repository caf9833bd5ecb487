/**
 * The projects app: portfolio projects with their technology tags and
 * screenshots, the slug a project gets when it is saved, the order the site
 * lists them in, and the sanitizer policy for a project's case study.
 *
 * Timestamps are integers (ticks of the database clock); a later time is a
 * larger integer.
 */
module Projects {
  import opened Wrappers
  import Slugs
  import Timestamps
  import Ordering
  import AllowList

  datatype Status = Draft | Published

  /** A technology or tool used in projects (`name` is unique in the database). */
  datatype TechStack = TechStack(name: string, category: string)

  /** A portfolio project. Its `save` fills in a missing slug, so it is an object. */
  class Project {
    var title: string
    var slug: string
    var shortDescription: string
    var techStack: set<TechStack>
    var githubUrl: Option<string>
    var liveUrl: Option<string>
    var caseStudyContent: string
    var featured: bool
    var status: Status
    var order: int
    var createdAt: Option<int>
    var updatedAt: Option<int>

    /**
     * A new, unsaved project: the fields without a default come from the
     * author, and the two timestamps wait for the first save.
     */
    constructor (title: string, shortDescription: string)
      ensures this.title == title && this.shortDescription == shortDescription
      ensures slug == "" && techStack == {} && githubUrl == None && liveUrl == None
      ensures caseStudyContent == "" && !featured && status == Draft && order == 0
      ensures createdAt == None && updatedAt == None
      ensures Timestamps.Consistent(createdAt, updatedAt)
    {
      this.title := title;
      this.slug := "";
      this.shortDescription := shortDescription;
      this.techStack := {};
      this.githubUrl := None;
      this.liveUrl := None;
      this.caseStudyContent := "";
      this.featured := false;
      this.status := Draft;
      this.order := 0;
      this.createdAt := None;
      this.updatedAt := None;
    }

    /**
     * `save()` at clock reading `now`: an empty slug becomes `slugify(title)`,
     * a non-empty one is kept; then the framework stamps `created_at` on the
     * first save and `updated_at` on every save. Every other field keeps its value.
     */
    method Save(slugify: string -> string, now: int)
      modifies this`slug, this`createdAt, this`updatedAt
      ensures slug == Slugs.SlugOnSave(old(slug), title, slugify)
      ensures createdAt == Timestamps.AddedOnSave(old(createdAt), now)
      ensures updatedAt == Some(now)
      ensures old(Timestamps.Consistent(createdAt, updatedAt)) &&
              (old(updatedAt).Some? ==> old(updatedAt).value <= now) ==>
              Timestamps.Consistent(createdAt, updatedAt)
    {
      if slug == "" {
        slug := slugify(title);
      }
      if createdAt.None? {
        createdAt := Some(now);
      }
      updatedAt := Some(now);
    }
  }

  /**
   * A screenshot of a project, listed by `order`. `projectId` is the foreign-key
   * column that names the project (its database-assigned primary key).
   */
  datatype ProjectImage = ProjectImage(projectId: nat, image: string, caption: string, order: int)

  /** The fields of `Meta.ordering = ['order', '-created_at']` in a saved project's row. */
  datatype ProjectKey = ProjectKey(order: int, createdAt: int)

  /** Lower `order` first; for equal `order`, the newer project first. */
  predicate ProjectBefore(a: ProjectKey, b: ProjectKey) {
    a.order < b.order || (a.order == b.order && a.createdAt >= b.createdAt)
  }

  /** `Meta.ordering = ['order']`. */
  predicate ImageBefore(a: ProjectImage, b: ProjectImage) {
    a.order <= b.order
  }

  /** `Meta.ordering = ['name']`. */
  predicate TechStackBefore(a: TechStack, b: TechStack) {
    Ordering.StringBefore(a.name, b.name)
  }

  /** The project order can list any set of projects, consistently. */
  lemma ProjectOrderIsTotal()
    ensures Ordering.TotalPreorder(ProjectBefore)
  {}

  /** The image order can list any set of images, consistently. */
  lemma ImageOrderIsTotal()
    ensures Ordering.TotalPreorder(ImageBefore)
  {}

  /** The name order can list any set of technologies, consistently. */
  lemma TechStackOrderIsTotal()
    ensures Ordering.TotalPreorder(TechStackBefore)
  {
    Ordering.StringOrderIsTotal();
  }

  /**
   * A project listing is in display order exactly when, for any two projects,
   * the earlier one has no larger `order`, and when their `order` is equal, the
   * earlier one was created no earlier.
   */
  lemma ProjectsInDisplayOrder(keys: seq<ProjectKey>)
    ensures Ordering.Sorted(keys, ProjectBefore) <==>
      forall i, j :: 0 <= i < j < |keys| ==>
        keys[i].order <= keys[j].order &&
        (keys[i].order == keys[j].order ==> keys[i].createdAt >= keys[j].createdAt)
  {
    if Ordering.Sorted(keys, ProjectBefore) {
      Ordering.SortedPairwise(keys, ProjectBefore);
    }
  }

  /** Images are listed with non-decreasing `order`, and any such listing is in order. */
  lemma ImagesInDisplayOrder(images: seq<ProjectImage>)
    ensures Ordering.Sorted(images, ImageBefore) <==>
      forall i, j :: 0 <= i < j < |images| ==> images[i].order <= images[j].order
  {
    if Ordering.Sorted(images, ImageBefore) {
      Ordering.SortedPairwise(images, ImageBefore);
    }
  }

  /**
   * Technologies are listed by name: a listing is in this order exactly when
   * its names ascend, and then two different names are never inverted.
   */
  lemma TechStackInDisplayOrder(items: seq<TechStack>)
    ensures Ordering.Sorted(items, TechStackBefore) <==>
      forall i, j :: 0 <= i < j < |items| ==> Ordering.StringBefore(items[i].name, items[j].name)
    ensures Ordering.Sorted(items, TechStackBefore) ==>
      forall i, j :: 0 <= i < j < |items| && items[i].name != items[j].name ==>
        !Ordering.StringBefore(items[j].name, items[i].name)
  {
    Ordering.StringOrderIsTotal();
    assert Ordering.Transitive(TechStackBefore);
    if Ordering.Sorted(items, TechStackBefore) {
      Ordering.SortedPairwise(items, TechStackBefore);
    }
  }

  /** The tags and per-tag attributes a case study may keep after sanitizing. */
  const CaseStudyPolicy: AllowList.Policy := AllowList.Policy(
    { "p", "h1", "h2", "h3", "h4", "h5", "h6",
      "strong", "em", "a", "ul", "ol", "li",
      "blockquote", "code", "pre", "hr", "br",
      "table", "thead", "tbody", "tr", "th", "td",
      "img", "div", "span" },
    map[
      "a" := ["href", "title"],
      "img" := ["src", "alt", "title"],
      "code" := ["class"],
      "div" := ["class"],
      "span" := ["class"]
    ])

  /**
   * The case-study policy is safe: `a`, `img`, `code`, `div` and `span` are
   * allowed tags, `script` and `style` are not, and no attribute list holds
   * `style` or an `on*` handler.
   */
  lemma CaseStudyPolicyIsSafe()
    ensures AllowList.Safe(CaseStudyPolicy)
  {
    CaseStudyAttributeTagsAllowed();
    CaseStudyTagsExcludeScriptAndStyle();
    CaseStudyAttributesSafe();
  }

  lemma CaseStudyAttributeTagsAllowed()
    ensures forall tag :: tag in CaseStudyPolicy.attributes ==> tag in CaseStudyPolicy.tags
  {
    assert CaseStudyPolicy.attributes.Keys == {"a", "img", "code", "div", "span"};
  }

  lemma CaseStudyTagsExcludeScriptAndStyle()
    ensures "script" !in CaseStudyPolicy.tags && "style" !in CaseStudyPolicy.tags
  { }

  lemma CaseStudyAttributesSafe()
    ensures forall tag :: tag in CaseStudyPolicy.attributes ==>
      AllowList.SafeAttributes(CaseStudyPolicy.attributes[tag])
  {
    assert CaseStudyPolicy.attributes.Keys == {"a", "img", "code", "div", "span"};
  }
}
