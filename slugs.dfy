/**
 * The slug rule shared by `Project.save`, `Category.save` and `Post.save`:
 * an empty slug is filled from the display text (a title or a name) with
 * the framework's `slugify`, and a non-empty slug is never replaced.
 *
 * `slugify` itself belongs to the framework and is not modelled: it is an
 * arbitrary total function, passed in by the caller.
 */
module Slugs {

  /** The slug a record holds once its `save()` has run. */
  function SlugOnSave(slug: string, source: string, slugify: string -> string): string {
    if slug == "" then slugify(source) else slug
  }

  /** An empty slug becomes the slugified source text. */
  lemma FillsEmptySlug(source: string, slugify: string -> string)
    ensures SlugOnSave("", source, slugify) == slugify(source)
  {}

  /** A non-empty slug is kept, whatever the source text is now. */
  lemma KeepsExistingSlug(slug: string, source: string, source': string, slugify: string -> string)
    requires slug != ""
    ensures SlugOnSave(slug, source, slugify) == slug
    ensures SlugOnSave(slug, source', slugify) == SlugOnSave(slug, source, slugify)
  {}

  /** Saving again with the same source text does not change the slug. */
  lemma SaveIdempotent(slug: string, source: string, slugify: string -> string)
    ensures SlugOnSave(SlugOnSave(slug, source, slugify), source, slugify) == SlugOnSave(slug, source, slugify)
  {}
}
