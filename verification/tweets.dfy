/**
 Tweets as the timeline endpoint hands them to the scraper, and the
 classifier that labels each one "media", "link" or "none".
 */
module Tweets {

  datatype Option<+T> = None | Some(value: T)

  /** One tweet object. The API client's tweet object defines every one of
      these attributes and sets it to null when the API left the field out,
      so a field the response lacks is `None` here; only `attachments` is
      additionally guarded by `hasattr` in the source. The `attachments` and
      `entities` objects are dictionaries in the source; only their keys
      matter to it, so each is kept as its key set (a dictionary is truthy
      exactly when it has a key). */
  datatype Tweet = Tweet(
    id: int,
    createdAt: Option<string>,
    publicMetrics: Option<map<string, int>>,
    attachments: Option<set<string>>,
    entities: Option<set<string>>,
    text: string)

  /** Python truthiness of an optional dictionary, given by its keys. */
  predicate Truthy(d: Option<set<string>>)
  {
    d.Some? && d.value != {}
  }

  /** The attachment classification of a tweet: attachments win over links,
      and a tweet with neither is "none". */
  function DetectMedia(t: Tweet): (kind: string)
    ensures kind == "media" || kind == "link" || kind == "none"
    ensures kind == "media" <==> t.attachments.Some? && |t.attachments.value| > 0
    ensures kind == "link" <==>
              (t.attachments.None? || t.attachments.value == {}) &&
              t.entities.Some? && "urls" in t.entities.value
    ensures kind == "none" <==>
              (t.attachments.None? || t.attachments.value == {}) &&
              (t.entities.None? || "urls" !in t.entities.value)
  {
    if Truthy(t.attachments) then
      "media"
    else if Truthy(t.entities) && "urls" in t.entities.value then
      "link"
    else
      "none"
  }

  /** Media precedence: once a tweet carries attachments, what its entities
      hold does not change its label. */
  lemma MediaIgnoresEntities(t: Tweet, entities: Option<set<string>>)
    requires t.attachments.Some? && t.attachments.value != {}
    ensures DetectMedia(t) == DetectMedia(t.(entities := entities)) == "media"
  {
  }
}
