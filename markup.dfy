/**
 * The textual forms of a StaticString handle: `toHTML` (with `toJSON` and
 * `toString` as aliases) and `replace`. `encodeURI` and `JSON.stringify`
 * are passed in as functions.
 */
module Markup {
  import opened Js
  import opened Strings
  import opened StaticStrings

  const OPEN := "<hawkejs data-i18n data-domain=\""
  const KEY_ATTR := "\" data-key=\""
  const PARAMS_ATTR := "\" data-params=\""
  const CLOSE := "\"></hawkejs>"

  /** `encodeURI`, applied to a string. */
  type Encoder = string -> string
  /** `JSON.stringify`. */
  type Serializer = Value -> string

  /** The `data-params` payload: the encoded JSON of truthy placeholders, otherwise empty. */
  function Params(placeholders: Value, encode: Encoder, stringify: Serializer): string {
    if Truthy(placeholders) then encode(stringify(placeholders)) else ""
  }

  /** `handle.toHTML()`: a hawkejs element carrying the encoded domain, key and placeholders. */
  function ToHTML(h: StaticString, encode: Encoder, stringify: Serializer): string {
    OPEN + encode(ToStr(h.domain)) + KEY_ATTR + encode(ToStr(h.key)) + PARAMS_ATTR
      + Params(h.placeholders, encode, stringify) + CLOSE
  }

  /** `handle.toJSON()`. */
  function ToJSON(h: StaticString, encode: Encoder, stringify: Serializer): string {
    ToHTML(h, encode, stringify)
  }

  /** `handle.toString()`. */
  function ToString(h: StaticString, encode: Encoder, stringify: Serializer): string {
    ToHTML(h, encode, stringify)
  }

  /**
   * `handle.replace(needle, replacement)` replaces in the key; a key that is
   * not a string has no `replace` method, and the call throws (None).
   */
  function Replace(h: StaticString, needle: string, replacement: string): (r: Option<string>)
    ensures r.Some? <==> h.key.Str?
  {
    if h.key.Str? then Some(ReplaceFirst(h.key.s, needle, replacement)) else None
  }

  /** The three attribute values of a hawkejs i18n element. */
  datatype Attributes = Attributes(domain: string, key: string, params: string)

  /** The length of the longest prefix of `s` without a double quote. */
  function QuoteFree(s: string): (n: nat)
    ensures n <= |s|
    ensures forall i :: 0 <= i < n ==> s[i] != '"'
    ensures n < |s| ==> s[n] == '"'
  {
    if s == [] || s[0] == '"' then 0 else 1 + QuoteFree(s[1..])
  }

  /** `s` starts with `lead`, then an attribute value that runs up to the next double quote. */
  function Field(s: string, lead: string): Option<(string, string)> {
    if lead <= s then
      var rest := s[|lead|..];
      var n := QuoteFree(rest);
      Some((rest[..n], rest[n..]))
    else None
  }

  /** Reads back the attributes of an element that `ToHTML` produced. */
  function ParseHTML(html: string): Option<Attributes> {
    match Field(html, OPEN)
    case None => None
    case Some((domain, r1)) =>
      match Field(r1, KEY_ATTR)
      case None => None
      case Some((key, r2)) =>
        match Field(r2, PARAMS_ATTR)
        case None => None
        case Some((params, r3)) =>
          if r3 == CLOSE then Some(Attributes(domain, key, params)) else None
  }

  lemma FieldOf(lead: string, value: string, rest: string)
    requires '"' !in value
    requires rest != [] && rest[0] == '"'
    ensures Field(lead + value + rest, lead) == Some((value, rest))
  {
    var s := lead + value + rest;
    assert lead <= s;
    var tail := s[|lead|..];
    assert tail == value + rest;
    var n := QuoteFree(tail);
    assert n == |value| by {
      assert forall i :: 0 <= i < |value| ==> tail[i] == value[i];
      assert tail[|value|] == '"';
    }
    assert tail[..n] == value && tail[n..] == rest;
  }

  /**
   * Round trip: when the encoder never yields a double quote (encodeURI
   * escapes it as %22), the rendering collaborator reads back exactly the
   * encoded domain, the encoded key and the placeholder payload.
   */
  lemma ParseToHTML(h: StaticString, encode: Encoder, stringify: Serializer)
    requires '"' !in encode(ToStr(h.domain)) && '"' !in encode(ToStr(h.key))
    requires '"' !in Params(h.placeholders, encode, stringify)
    ensures ParseHTML(ToHTML(h, encode, stringify))
      == Some(Attributes(encode(ToStr(h.domain)), encode(ToStr(h.key)), Params(h.placeholders, encode, stringify)))
  {
    var d, k, p := encode(ToStr(h.domain)), encode(ToStr(h.key)), Params(h.placeholders, encode, stringify);
    var r3 := CLOSE;
    var r2 := PARAMS_ATTR + p + r3;
    var r1 := KEY_ATTR + k + r2;
    assert ToHTML(h, encode, stringify) == OPEN + d + r1;
    FieldOf(OPEN, d, r1);
    FieldOf(KEY_ATTR, k, r2);
    FieldOf(PARAMS_ATTR, p, r3);
  }

  /** Falsy placeholders give an empty `data-params` attribute. */
  lemma NoParamsWhenFalsy(h: StaticString, encode: Encoder, stringify: Serializer)
    requires !Truthy(h.placeholders)
    ensures ToHTML(h, encode, stringify)
      == OPEN + encode(ToStr(h.domain)) + KEY_ATTR + encode(ToStr(h.key)) + PARAMS_ATTR + CLOSE
  {
  }

  /** `toJSON()` and `toString()` are both `toHTML()`. */
  lemma SerialisationsAgree(h: StaticString, encode: Encoder, stringify: Serializer)
    ensures ToJSON(h, encode, stringify) == ToHTML(h, encode, stringify)
    ensures ToString(h, encode, stringify) == ToHTML(h, encode, stringify)
  {
  }
}
