/**
 The blog post record the public blog list and the admin blog management page
 share, and the normalisation of `post_content` that the admin fetcher applies to
 what `/api/blogpost` returns (a rich-text object with a `text` field, a plain
 string, or null).
 */
module Posts {
  import opened Js

  /** A post as the list views keep it. Every field holds whatever the API sent,
      so each is an untyped value. */
  datatype Blog = Blog(id: Json, title: Json, content: Json, category: Json, tags: Json, createdAt: Json)

  /** The content the admin fetcher keeps: the
      object's text when it has a truthy one, otherwise the value as a string,
      with null and undefined read as the empty string. */
  function NormalContent(pc: Json, num: real -> string): (r: Json)
    ensures pc.JStr? ==> r == pc
    ensures pc.Nullish() ==> r == JStr("")
    ensures r.Truthy() || r.JStr?
    ensures !r.JStr? ==> pc.JObj? && "text" in pc.fields && r == pc.fields["text"]
  {
    var text := OptGet(pc, "text");
    if pc.TypeofObject() && text.Truthy() then text
    else JStr(JsString(Coalesce(pc, JStr("")), num))
  }

  /** A rich-text object's text wins over everything else. */
  lemma NormalContentPrefersText(fields: map<string, Json>, num: real -> string)
    requires "text" in fields && fields["text"].Truthy()
    ensures NormalContent(JObj(fields), num) == fields["text"]
  {
  }

  /** Normalising the normalised content of a string or a missing value changes
      nothing. */
  lemma NormalContentIdempotent(pc: Json, num: real -> string)
    requires NormalContent(pc, num).JStr?
    ensures NormalContent(NormalContent(pc, num), num) == NormalContent(pc, num)
  {
  }
}
