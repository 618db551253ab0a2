/**
 * Pure helpers of the engine: the wrapper/tag-name mapping and the parsing
 * of boolean-like attribute values.
 */
module Names {
  import opened Wrappers

  const Mark: string := "mark"
  const Strike: string := "strike"
  const Underline: string := "underline"

  /** The wrappers a region may use (`allowedWrappers`). */
  const AllowedWrappers: seq<string> := [Mark, Strike, Underline]

  /** The wrapper used when no wrapper is configured. */
  const DefaultWrapper: string := Mark

  function LowerChar(c: char): char
  {
    if 'A' <= c <= 'Z' then (c as int + 32) as char else c
  }

  /** No ASCII capital letter. */
  predicate IsLower(s: string)
  {
    forall i :: 0 <= i < |s| ==> !('A' <= s[i] <= 'Z')
  }

  /** `toLowerCase`, on the ASCII letters, character by character. */
  function Lower(s: string): (r: string)
    ensures |r| == |s|
    ensures forall i :: 0 <= i < |s| ==> r[i] == LowerChar(s[i])
  {
    seq(|s|, i requires 0 <= i < |s| => LowerChar(s[i]))
  }

  lemma LowerOfLower(s: string)
    requires IsLower(s)
    ensures Lower(s) == s
  {
  }

  /**
   * Lower-casing leaves no capital, keeps every other character where it
   * was, turns a capital into the letter 32 code points on, and is
   * idempotent.
   */
  lemma LowerIsLower(s: string)
    ensures IsLower(Lower(s))
    ensures forall i :: 0 <= i < |s| && !('A' <= s[i] <= 'Z') ==> Lower(s)[i] == s[i]
    ensures forall i :: 0 <= i < |s| && 'A' <= s[i] <= 'Z' ==> Lower(s)[i] as int == s[i] as int + 32
    ensures Lower(Lower(s)) == Lower(s)
  {
    LowerOfLower(Lower(s));
  }

  /** `wrapperToTagname`: the tag a region of this wrapper is created with. */
  function WrapperToTagname(wrapper: string): (tag: string)
    ensures IsLower(tag)
    ensures wrapper !in AllowedWrappers ==> tag == "span"
    ensures tag in ["mark", "s", "u", "span"]
  {
    if wrapper == Mark then "mark"
    else if wrapper == Strike then "s"
    else if wrapper == Underline then "u"
    else "span"
  }

  /** `tagNameToWrapper`: the wrapper a region's tag stands for; unknown tags pass through lower-cased. */
  function TagNameToWrapper(tag: string): (wrapper: string)
    ensures Lower(tag) !in ["mark", "s", "u"] ==> wrapper == Lower(tag)
    ensures Lower(tag) in ["mark", "s", "u"] ==> wrapper in AllowedWrappers
  {
    var t := Lower(tag);
    if t == "mark" then Mark
    else if t == "s" then Strike
    else if t == "u" then Underline
    else t
  }

  /** Every allowed wrapper survives the trip to a tag name and back. */
  lemma WrapperRoundTrip(wrapper: string)
    requires wrapper in AllowedWrappers
    ensures TagNameToWrapper(WrapperToTagname(wrapper)) == wrapper
  {
    var t := WrapperToTagname(wrapper);
    LowerOfLower(t);
  }

  /** The tag-name mapping does not see the case of its argument. */
  lemma TagNameCaseInsensitive(a: string, b: string)
    requires Lower(a) == Lower(b)
    ensures TagNameToWrapper(a) == TagNameToWrapper(b)
  {
  }

  /** Upper-case tag names, as the DOM reports them, map like their lower-case forms. */
  lemma TagNameOfLowered(tag: string)
    ensures TagNameToWrapper(Lower(tag)) == TagNameToWrapper(tag)
  {
    LowerIsLower(tag);
  }

  /** Does a tag name denote a region element (`mark`, `s` or `u`, any case)? */
  predicate IsRegionTag(tag: string)
  {
    Lower(tag) in ["mark", "s", "u"]
  }

  /**
   * `#parseBoolean`: an absent attribute gives no value; `""` and `"true"`
   * give true, `"false"` gives false; anything else is a TypeError.
   */
  function ParseBoolean(name: string, value: Option<string>): (r: Result<Option<bool>, string>)
    ensures value.None? ==> r == Ok(None)
    ensures value == Some("") || value == Some("true") ==> r == Ok(Some(true))
    ensures value == Some("false") ==> r == Ok(Some(false))
    ensures r.Err? <==> value.Some? && value.value !in {"", "true", "false"}
  {
    match value
    case None => Ok(None)
    case Some(v) =>
      if v !in ["", "true", "false"] then
        Err("Attribute " + name + " must be an empty string (\"\"), null, \"true\" or \"false\"")
      else
        Ok(Some(v in ["", "true"]))
  }
}
