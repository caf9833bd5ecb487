/**
 * The policy data handed to the HTML sanitizer when a case study or a post body
 * is rendered: the tags it may keep and, per tag, the attributes it may keep.
 * The sanitizer itself is a library and is not modelled; only the data is.
 */
module AllowList {

  /** The sanitizer only asks whether a tag is in the allowed list, so the list is a set here. */
  datatype Policy = Policy(tags: set<string>, attributes: map<string, seq<string>>)

  /** An inline event-handler attribute such as `onclick` or `onError` (HTML attribute names ignore case). */
  predicate IsEventHandler(attr: string) {
    |attr| >= 2 && (attr[0] == 'o' || attr[0] == 'O') && (attr[1] == 'n' || attr[1] == 'N')
  }

  predicate TagAllowed(p: Policy, tag: string) {
    tag in p.tags
  }

  /** A tag with no entry in the attribute map keeps no attributes. */
  predicate AttributeAllowed(p: Policy, tag: string, attr: string) {
    tag in p.attributes && attr in p.attributes[tag]
  }

  /**
   * The structural safety of a policy: every tag with an attribute list is an
   * allowed tag, neither `script` nor `style` is allowed, and no tag may keep a
   * `style` attribute or an event handler.
   */
  ghost predicate Safe(p: Policy) {
    && (forall tag :: tag in p.attributes ==> tag in p.tags)
    && "script" !in p.tags
    && "style" !in p.tags
    && (forall tag :: tag in p.attributes ==> SafeAttributes(p.attributes[tag]))
  }

  /** No `style` attribute and no event handler among `attrs`. */
  predicate SafeAttributes(attrs: seq<string>) {
    forall attr :: attr in attrs ==> attr != "style" && !IsEventHandler(attr)
  }

  /** Under a safe policy, a kept attribute sits on a kept tag and can carry no style or script. */
  lemma SafeAttribute(p: Policy, tag: string, attr: string)
    requires Safe(p) && AttributeAllowed(p, tag, attr)
    ensures TagAllowed(p, tag)
    ensures attr != "style" && !IsEventHandler(attr)
  {
    assert tag in p.attributes && attr in p.attributes[tag];
  }
}
