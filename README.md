# Portfolio models in Dafny

This project models the data layer of a Django portfolio site. It has two apps:

- `projects`: portfolio projects, their screenshots and the technologies they use.
- `blog`: posts and their categories.

The model covers the behaviour those model classes define themselves:

- **Slug and timestamps on save.** `Project`, `Category` and `Post` each fill an empty slug with the slugified title or name when saved. A slug that is already set is never touched. The slugify function is a parameter with no properties assumed (`Slugs.SlugOnSave`, and the `Save` method of each class).
- **Tag parsing.** `Post.get_tags_list` splits the comma-separated `tags` field with Python's `str.split(',')`. It strips each piece with `str.strip()` and drops the pieces that strip to nothing. `PyStr` models the two string methods with Python's exact semantics:
  - `split` returns one piece more than there are separators;
  - `strip` removes exactly the 29 code points for which `str.isspace()` holds.

  `Blog` builds the comprehension on top of them and proves:
  - each tag is non-empty, stripped and comma-free;
  - each tag comes, in order, from a distinct comma-separated field;
  - the result is empty exactly when the field holds only commas and whitespace;
  - parsing distributes over a comma;
  - parsing is the inverse of joining well-formed tags with commas.
- **Default orderings.** Each of the five `Meta.ordering` declarations is a comparator on the sort key. Each comparator is proved to be a total preorder. For every declaration, "the list is sorted" is proved equivalent to a pairwise statement about every two positions: order ascending, `created_at` descending on ties, `published_at` descending, names ascending. The `Ordering` module holds the code-point order on strings and the lemma that turns "each neighbour in order" into "every pair in order".
- **Sanitizer allow-lists.** Both `get_case_study_html` and `get_content_html` pass the same tags and attributes to the HTML sanitizer. They are modelled as data (`AllowList.Policy`). The model proves that the two policies are equal and that both are safe:
  - neither `script` nor `style` is an allowed tag;
  - every tag with an attribute list is an allowed tag;
  - no tag may keep a `style` attribute or an `on…` event handler.

`save` fills the slug whenever it is empty, on every save, not only the first. The framework's part of each save is modelled too: the `auto_now_add` field `created_at` is stamped on the first save and the `auto_now` field `updated_at` on every save, from a clock reading the caller passes in (`Timestamps`).

## Model

| member | source | states |
|---|---|---|
| Slugs.SlugOnSave | portfolio_project_complete/portfolio_project/projects/models.py:60-61 | the slug a record holds after save: slugify of the title or name when the slug was empty, the old slug otherwise; the same rule as blog/models.py:23-24 and 61-62 |
| Timestamps.AddedOnSave | portfolio_project_complete/portfolio_project/projects/models.py:53 | `auto_now_add`: an unset creation stamp becomes the save's clock reading, a set one is kept (also blog/models.py:53) |
| Slugs.FillsEmptySlug | portfolio_project_complete/portfolio_project/projects/models.py:60-61 | under the shared save rule `SlugOnSave`, an empty slug is replaced by the slugified source |
| Slugs.KeepsExistingSlug | portfolio_project_complete/portfolio_project/blog/models.py:61-62 | a non-empty slug is kept, and the result does not depend on the title or name at all, so renaming never changes an existing slug |
| Slugs.SaveIdempotent | portfolio_project_complete/portfolio_project/blog/models.py:22-25 | saving twice leaves the same slug as saving once, whatever slugify returns |
| Timestamps.SaveSetsCreation | portfolio_project_complete/portfolio_project/projects/models.py:53 | after a save the creation stamp is set and is not later than that save |
| Timestamps.CreationKept | portfolio_project_complete/portfolio_project/blog/models.py:53 | the creation time recorded by the first save survives every later save, whatever the clock reads then |
| Timestamps.SaveKeepsConsistent | portfolio_project_complete/portfolio_project/blog/models.py:53-54 | with a clock that does not run backwards, a save that records now as the update time leaves both stamps set and created_at not after updated_at |
| Projects.Project.constructor | portfolio_project_complete/portfolio_project/projects/models.py:33-54 | a new, unsaved project has an empty slug, no technologies, no links, no case study, is not featured, is a draft with order 0, and has neither timestamp yet |
| Projects.Project.Save | portfolio_project_complete/portfolio_project/projects/models.py:53-62 | only the slug and the two timestamps change; the slug becomes slugify(title) if it was empty and stays as it was otherwise; created_at is set to now on the first save and kept after; updated_at becomes now; with a clock that does not run backwards the stamps stay consistent |
| Blog.Category.constructor | portfolio_project_complete/portfolio_project/blog/models.py:15-16 | a new category has the given name and an empty slug |
| Blog.Category.Save | portfolio_project_complete/portfolio_project/blog/models.py:22-25 | only the slug changes; it becomes slugify(name) if it was empty and stays as it was otherwise |
| Blog.Post.constructor | portfolio_project_complete/portfolio_project/blog/models.py:38-55 | a new, unsaved post has an empty slug, no category, no tags, no image, is an unfeatured draft with no publication time, and has neither automatic timestamp yet |
| Blog.Post.Save | portfolio_project_complete/portfolio_project/blog/models.py:53-63 | only the slug and the two automatic timestamps change (published_at is untouched); the slug becomes slugify(title) if it was empty and stays as it was otherwise; created_at is set to now on the first save and kept after; updated_at becomes now; with a clock that does not run backwards the stamps stay consistent |
| Blog.Post.TagsList | portfolio_project_complete/portfolio_project/blog/models.py:90-92 | every returned tag is non-empty, has no surrounding whitespace and no comma, and there are at most as many tags as comma-separated fields |
| PyStr.IsSpace | portfolio_project_complete/portfolio_project/blog/models.py:92 | the characters `str.strip()` removes: exactly the 29 code points for which Python's `str.isspace()` holds |
| PyStr.Strip | portfolio_project_complete/portfolio_project/blog/models.py:92 | the result has no leading or trailing whitespace and is the input with only whitespace removed from its two ends |
| PyStr.StripUnique | portfolio_project_complete/portfolio_project/blog/models.py:92 | any infix with only whitespace around it and none at its own ends is exactly what strip returns, so strip removes all the outer whitespace and nothing else |
| PyStr.StripOfStripped | portfolio_project_complete/portfolio_project/blog/models.py:92 | strip leaves a string without outer whitespace unchanged |
| PyStr.StripIdempotent | portfolio_project_complete/portfolio_project/blog/models.py:92 | stripping twice is stripping once |
| PyStr.StripEmptyIff | portfolio_project_complete/portfolio_project/blog/models.py:92 | a piece strips to the empty string exactly when it is all whitespace (both directions) |
| PyStr.StripKeepsOnlyInputChars | portfolio_project_complete/portfolio_project/blog/models.py:92 | strip introduces no character that was not in the input |
| PyStr.Split | portfolio_project_complete/portfolio_project/blog/models.py:92 | splitting yields one more piece than there are separators, and no piece contains the separator |
| PyStr.JoinSplit | portfolio_project_complete/portfolio_project/blog/models.py:92 | joining the pieces of a split with the separator gives back the original string |
| PyStr.SplitJoin | portfolio_project_complete/portfolio_project/blog/models.py:92 | splitting the join of a non-empty list of separator-free parts gives back the parts |
| PyStr.SplitNoSeparator | portfolio_project_complete/portfolio_project/blog/models.py:92 | a string without the separator splits into itself alone, so an empty field gives one empty piece |
| PyStr.SplitConcat | portfolio_project_complete/portfolio_project/blog/models.py:92 | splitting a + sep + b is splitting a followed by splitting b |
| Blog.StripEach | portfolio_project_complete/portfolio_project/blog/models.py:92 | the map `tag.strip()` applied to every comma-separated field, in order |
| Blog.DropEmpty | portfolio_project_complete/portfolio_project/blog/models.py:92 | the filter keeps no empty piece, keeps only pieces of its input, and never lengthens it |
| Blog.ParseTags | portfolio_project_complete/portfolio_project/blog/models.py:92 | the comprehension's result: every tag is non-empty, stripped and comma-free, and there are at most as many tags as fields |
| Blog.ParseTagsStripped | portfolio_project_complete/portfolio_project/blog/models.py:92 | every parsed tag is a fixed point of strip |
| Blog.ParseTagsPositions | portfolio_project_complete/portfolio_project/blog/models.py:92 | the k-th tag is the stripped k-th non-blank field: the fields used are strictly increasing (order is kept, nothing is duplicated) and every field that is not blank appears |
| Blog.DropEmptyAppend | portfolio_project_complete/portfolio_project/blog/models.py:92 | the filter distributes over concatenation |
| Blog.SplitPiecesBlank | portfolio_project_complete/portfolio_project/blog/models.py:92 | every comma-separated field is blank exactly when the string holds only commas and whitespace |
| Blog.ParseTagsEmptyIff | portfolio_project_complete/portfolio_project/blog/models.py:92 | no tags come back exactly when the field holds only commas and whitespace (both directions) |
| Blog.ParseTagsConcat | portfolio_project_complete/portfolio_project/blog/models.py:92 | the tags of a + "," + b are the tags of a followed by the tags of b |
| Blog.ParseTagsJoin | portfolio_project_complete/portfolio_project/blog/models.py:92 | joining well-formed tags with commas and parsing gives back exactly those tags, in order |
| Ordering.Sorted | portfolio_project_complete/portfolio_project/projects/models.py:57 | a listing is in a `Meta.ordering` order when every neighbouring pair is in that order |
| Ordering.StringBefore | portfolio_project_complete/portfolio_project/blog/models.py:20 | `['name']`: names in code-point lexicographic order, a proper prefix first (also projects/models.py:18) |
| Ordering.SortedPairwise | portfolio_project_complete/portfolio_project/projects/models.py:57 | under a transitive comparator, a list whose neighbours are in order has every pair in order |
| Ordering.StringOrderIsTotal | portfolio_project_complete/portfolio_project/projects/models.py:18 | the code-point order on names is total, transitive and antisymmetric |
| Projects.ProjectBefore | portfolio_project_complete/portfolio_project/projects/models.py:57 | `['order', '-created_at']`: a lower order first, and on equal order the later created_at first |
| Projects.ImageBefore | portfolio_project_complete/portfolio_project/projects/models.py:101-102 | `['order']`: images by ascending order, ties unordered |
| Projects.TechStackBefore | portfolio_project_complete/portfolio_project/projects/models.py:17-18 | `['name']`: technologies by ascending name, compared by code point |
| Projects.ImageOrderIsTotal | portfolio_project_complete/portfolio_project/projects/models.py:101-102 | ordering images by order is a total preorder |
| Projects.TechStackOrderIsTotal | portfolio_project_complete/portfolio_project/projects/models.py:17-18 | ordering technologies by name is a total preorder |
| Projects.ProjectOrderIsTotal | portfolio_project_complete/portfolio_project/projects/models.py:57 | ordering by order, then by created_at descending, is a total preorder |
| Projects.ProjectsInDisplayOrder | portfolio_project_complete/portfolio_project/projects/models.py:57 | a project list is in default order exactly when for every two positions the order value does not decrease and, on equal order, created_at does not increase |
| Projects.ImagesInDisplayOrder | portfolio_project_complete/portfolio_project/projects/models.py:101-102 | an image list is in default order exactly when the order value never decreases between any two positions |
| Projects.TechStackInDisplayOrder | portfolio_project_complete/portfolio_project/projects/models.py:14-18 | a tech-stack list is in default order exactly when names ascend across every two positions, and then no later name sorts strictly before an earlier different name |
| Blog.PublishedBefore | portfolio_project_complete/portfolio_project/blog/models.py:58 | `-published_at`: a later publication time first; an unset time before or after every set one, as `nullsFirst` says |
| Blog.PostBefore | portfolio_project_complete/portfolio_project/blog/models.py:58 | `['-published_at', '-created_at']`: by publication time as above, and on equal publication time the later created_at first |
| Blog.PostOrderIsTotal | portfolio_project_complete/portfolio_project/blog/models.py:58 | ordering by published_at descending, then created_at descending, is a total preorder for either placement of unpublished posts |
| Blog.PostsInDisplayOrder | portfolio_project_complete/portfolio_project/blog/models.py:55-58 | a post list is in default order exactly when, for every two positions, published times do not increase, unpublished posts sit all before or all after the published ones as the database places NULLs, and equal published times have created_at non-increasing |
| Blog.CategoriesInDisplayOrder | portfolio_project_complete/portfolio_project/blog/models.py:15-20 | a category list is in default order exactly when names ascend across every two positions, and then no later name sorts strictly before an earlier different name |
| AllowList.SafeAttribute | portfolio_project_complete/portfolio_project/projects/models.py:81-88 | under a safe policy, any attribute the allow-list admits sits on an allowed tag and is neither style nor an event handler |
| Projects.CaseStudyPolicyIsSafe | portfolio_project_complete/portfolio_project/projects/models.py:74-87 | the case-study allow-list `Projects.CaseStudyPolicy` (the 27 tags and five attribute entries of these lines, item for item) is safe: every attributed tag is allowed, script and style are not, and no attribute list holds style or an on… handler |
| Projects.CaseStudyAttributeTagsAllowed | portfolio_project_complete/portfolio_project/projects/models.py:81-87 | a, img, code, div and span, the tags with attribute lists, are all allowed tags |
| Projects.CaseStudyTagsExcludeScriptAndStyle | portfolio_project_complete/portfolio_project/projects/models.py:74-80 | script and style are not allowed tags |
| Projects.CaseStudyAttributesSafe | portfolio_project_complete/portfolio_project/projects/models.py:81-87 | no allowed attribute list holds style or an event handler |
| Blog.ContentPolicyMatchesCaseStudyPolicy | portfolio_project_complete/portfolio_project/blog/models.py:74-87 | `Blog.ContentPolicy`, the data of these lines, equals `Projects.CaseStudyPolicy`: posts are sanitized with exactly the tags and attributes used for case studies |
| Blog.ContentPolicyIsSafe | portfolio_project_complete/portfolio_project/blog/models.py:74-87 | the post allow-list is safe in the same sense |

## Left out

- Markdown rendering and the sanitizer itself (`markdown.markdown`, `bleach.clean`) are libraries. Only the allow-list data handed to them is modelled. Nothing is proved about the HTML they return.
- `slugify` is Django's and is a parameter with no properties assumed. No proof needs its body.
- `super().save()` writes to the database. The model keeps the slug and the two automatic timestamps; the primary key an insert assigns is not modelled. Uniqueness of slugs and names and `max_length` limits are database or field behaviour and are not enforced.
- The clock is not modelled. Timestamps are integers, and `Save` takes the clock reading as a parameter.
- Projects.Project.Save, Blog.Post.Save: the framework stamps `created_at` when the object is inserted. The model equates "inserted" with "`created_at` is still unset", which holds because only a save sets it. Setting `created_at` by hand before the first save is not modelled. The model is the argument-less `save()`: `update_fields`, `raw`, `force_insert` and `using` are not modelled, and both stamps of one save share one clock reading, while the framework reads the clock once per field.
- `Meta.ordering` is applied by the database. The model states what it means for a list to be in that order and does not model the query or the sort.
- The ordering lemmas range over the sort-key values of saved rows (`ProjectKey`, `ProjectImage`, `TechStack`, `PostKey`, category names), not over `Project` or `Post` objects. A listing is a query result over saved rows, whose timestamps are always set; an unsaved object has no row to be listed.
- Blog.PostsInDisplayOrder: where unpublished posts (NULL `published_at`) go in a descending sort depends on the database backend, which settings choose at run time. The placement is therefore a parameter, `nullsFirst`.
- Name ordering uses code-point order. A database collation (case-insensitive or locale-aware) can order names differently.
- `str.isspace` is modelled by its fixed set of 29 code points. Lone surrogates cannot occur in a Dafny string.
- A slug of `None` is not modelled. The field is a non-null string, and `blank=True` stores the empty string.
- `__str__`, `get_absolute_url` (`reverse`), `verbose_name` and the `STATUS_CHOICES` labels hold no logic beyond formatting and URL lookup. They are not modelled.
- Views, forms, admin, URL configuration and settings are not part of this model.
