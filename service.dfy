/** The `TtsService` object both entry points create once and drive from the
    `/tts/session` and `/tts/language` routes. It keeps a language table and
    a session path; neither reaches the synthesis command. */
module Service {

  /** The language table the service starts with, as (key, name) pairs in
      the insertion order `Object.keys` reports. */
  const DefaultLangs: seq<(string, string)> := [("en", "English"), ("de", "German")]

  /** The keys of a language table, in order. */
  function Keys(langs: seq<(string, string)>): (keys: seq<string>)
    ensures |keys| == |langs|
    ensures forall i :: 0 <= i < |keys| ==> keys[i] == langs[i].0
  {
    if langs == [] then [] else [langs[0].0] + Keys(langs[1..])
  }

  class TtsService {
    var langs: seq<(string, string)>
    var sessionPath: string

    /** No operation of the service touches the language table. */
    ghost predicate Valid()
      reads this
    {
      langs == DefaultLangs
    }

    constructor ()
      ensures Valid() && sessionPath == ""
    {
      langs := DefaultLangs;
      sessionPath := "";
    }

    /** `initSessionsPath(path)`: records the path and nothing else. */
    method InitSessionsPath(path: string)
      requires Valid()
      modifies this
      ensures Valid() && sessionPath == path && langs == old(langs)
    {
      sessionPath := path;
    }

    /** `getLanguages()`: the keys of the language table, which for a
        service in its only reachable state are "en" then "de". */
    function GetLanguages(): (keys: seq<string>)
      reads this
      ensures |keys| == |langs| && forall i :: 0 <= i < |keys| ==> keys[i] == langs[i].0
      ensures Valid() ==> keys == ["en", "de"]
    {
      Keys(langs)
    }

    /** `loadModel(langId)`: a stub that loads nothing and changes nothing. */
    method LoadModel(langId: string)
      ensures unchanged(this)
    {
    }
  }
}
