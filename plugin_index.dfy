/** The plugin entry point `index.js`: its command builder, which wraps the
    text in single quotes, the `/tts/generate` handler, which strips the
    text before building the command, its speaker list and its sample
    warmer. */
module PluginIndex {
  import opened Text
  import Js
  import opened Piper

  /** The characters the handler's global replace deletes. */
  const Forbidden: set<char> := {'\'', '"', '\\', '/', '`', ';'}

  /** The handler's text cleaning: the first `*` goes, then every
      forbidden character. */
  function Sanitize(text: string): (clean: string)
    ensures forall i :: 0 <= i < |clean| ==> clean[i] !in Forbidden
  {
    Js.RemoveAll(Js.RemoveFirst(text, '*'), Forbidden)
  }

  /** Filtering the cleaned text once more changes nothing. */
  lemma SanitizeFilterIdempotent(text: string)
    ensures Js.RemoveAll(Sanitize(text), Forbidden) == Sanitize(text)
  {
    Js.RemoveAllIdempotent(Js.RemoveFirst(text, '*'), Forbidden);
  }

  /** Cleaning only deletes: the result is the input with some characters
      left out and the rest in their original order. */
  lemma SanitizeOnlyDeletes(text: string)
    ensures IsSubsequence(Sanitize(text), text) && |Sanitize(text)| <= |text|
  {
    var starless := Js.RemoveFirst(text, '*');
    Js.RemoveAllSubsequence(starless, Forbidden);
    SubsequenceTransitive(Sanitize(text), starless, text);
  }

  /** Exactly what survives: every character that is neither forbidden nor
      `*` keeps its count, and `*` loses exactly one occurrence when it has
      any, so later asterisks reach the command. */
  lemma SanitizeKeeps(text: string)
    ensures forall c :: c !in Forbidden && c != '*' ==> multiset(Sanitize(text))[c] == multiset(text)[c]
    ensures multiset(Sanitize(text))['*'] == if '*' in text then multiset(text)['*'] - 1 else 0
  {
    var starless := Js.RemoveFirst(text, '*');
    assert multiset(starless) == multiset(text) - multiset{'*'};
    forall c | c !in Forbidden && c != '*'
      ensures multiset(Sanitize(text))[c] == multiset(text)[c]
    {
      assert multiset(Sanitize(text))[c] == multiset(starless)[c];
    }
    assert '*' !in Forbidden;
    assert multiset(Sanitize(text))['*'] == multiset(starless)['*'];
    if '*' !in text {
      assert multiset(text)['*'] == 0;
    }
  }

  /** The `*` that goes is the first one: what precedes it and what follows
      it, later asterisks included, are filtered and joined. */
  lemma SanitizeDropsFirstStar(text: string)
    ensures '*' in text ==> exists i :: (0 <= i < |text| && text[i] == '*' && '*' !in text[..i]
                                         && Sanitize(text) == Js.RemoveAll(text[..i], Forbidden) + Js.RemoveAll(text[i + 1..], Forbidden))
  {
    if '*' in text {
      var i := IndexOf(text, '*').value;
      assert Js.RemoveFirst(text, '*') == text[..i] + text[i + 1..];
      Js.RemoveAllConcat(text[..i], text[i + 1..], Forbidden);
    }
  }

  /** The whole cleaning is not idempotent: of two asterisks, one pass
      removes one and a second pass the other. */
  lemma SanitizeNotIdempotent()
    ensures Sanitize("**") == "*" && Sanitize(Sanitize("**")) == ""
  {
    assert Js.RemoveFirst("**", '*') == "*";
    assert Js.RemoveFirst("*", '*') == "";
    Js.RemoveAllNoop("*", Forbidden);
  }

  /** The echo command and the Piper executable `getPiperCommand` picks:
      Windows' are the defaults, Linux and macOS use a `piper` on the path,
      and only Linux asks echo to interpret backslash escapes. */
  function Launcher(env: Env): (r: (string, string))
    ensures env.platform == Linux ==> r == ("echo -e", "piper")
    ensures env.platform == Darwin ==> r == ("echo", "piper")
    ensures env.platform in {Win32, Other} ==> r == ("echo", env.dirname + "\\piper.exe")
  {
    var windows := env.dirname + "\\piper.exe";
    if env.platform == Linux then ("echo -e", "piper")
    else if env.platform == Win32 then ("echo", windows)
    else if env.platform == Darwin then ("echo", "piper")
    else ("echo", windows)
  }

  /** `getPiperCommand(text, voiceId, outputFile)`: echo the text in single
      quotes and pipe it into Piper with the model, the speaker and the
      output file as bare words. */
  function GetPiperCommand(env: Env, text: string, voiceId: string, outputFile: string): string
  {
    Launcher(env).0 + " " + "'" + text + "'" + CommandTail(env, voiceId, outputFile)
  }

  /** What `getPiperCommand` writes after the closing quote: the pipe into
      Piper and its three options; the text plays no part in it. */
  function CommandTail(env: Env, voiceId: string, outputFile: string): string
  {
    " | " + Launcher(env).1 + " -m " + ModelPath(env) + " -s " + voiceId + " -f " + outputFile
  }

  /** Quote safety: when the text holds no `'`, the command's first two
      single quotes enclose exactly the text, the echo command comes before
      them, and everything after them is the tail, which the text does not
      influence. */
  lemma TextIsSingleQuoted(env: Env, text: string, voiceId: string, outputFile: string)
    requires '\'' !in text
    ensures QuotedSpan(GetPiperCommand(env, text, voiceId, outputFile), '\'')
         == Some(Segments(Launcher(env).0 + " ", text, CommandTail(env, voiceId, outputFile)))
  {
    QuotedSpanOf(Launcher(env).0 + " ", text, CommandTail(env, voiceId, outputFile), '\'');
  }

  /** `/tts/generate` up to the command it executes: clean the text,
      resolve the voice, name a fresh output file after `id`, build the
      command. */
  function GenerateJob(env: Env, req: Request, id: string): (job: Job)
    ensures job.outputFile == OutputPath(env, id)
    ensures job.command == GetPiperCommand(env, Sanitize(req.text), "115", OutputPath(env, id))
  {
    var text := Sanitize(req.text);
    var voice := ResolveVoice(req.voice);
    var outputFile := OutputPath(env, id);
    VoiceToken(req.voice);
    Job(outputFile, GetPiperCommand(env, text, Js.NumberToString(voice), outputFile))
  }

  lemma CleanHasNoQuote(clean: string)
    requires forall i :: 0 <= i < |clean| ==> clean[i] !in Forbidden
    ensures '\'' !in clean
  {
  }

  /** Whatever a request carries, its cleaned text is exactly what lies
      between the command's first two single quotes, it holds no quote,
      backslash, slash, backtick or semicolon, the voice is 115 and the rest
      of the line is fixed by the environment and the output file. Where
      `/bin/sh` runs the line (every platform but Windows) that makes the
      text one single-quoted word in which `echo -e` finds no escape
      sequence; `cmd.exe`, which runs it on Windows, does not quote with
      `'`. */
  lemma RequestTextStaysQuoted(env: Env, req: Request, id: string)
    ensures QuotedSpan(GenerateJob(env, req, id).command, '\'')
            == Some(Segments(Launcher(env).0 + " ", Sanitize(req.text), CommandTail(env, "115", OutputPath(env, id))))
    ensures forall c :: c in Sanitize(req.text) ==> c !in Forbidden
  {
    var clean := Sanitize(req.text);
    var outputFile := OutputPath(env, id);
    CleanHasNoQuote(clean);
    TextIsSingleQuoted(env, clean, "115", outputFile);
    assert GenerateJob(env, req, id).command == GetPiperCommand(env, clean, "115", outputFile);
  }

  /** The `/tts/speakers` list: six speakers, each previewed at its sample
      file under `<baseURL>/samples/`. */
  function Speakers(baseUrl: string): (vs: seq<Voice>)
    ensures |vs| == 6
    ensures forall i :: 0 <= i < |vs| ==> vs[i].previewUrl == PreviewUrl(baseUrl, vs[i].voiceId)
  {
    [ Voice("Emily", "372", baseUrl + "/samples/372.wav"),
      Voice("Julie", "115", baseUrl + "/samples/115.wav"),
      Voice("Manon", "450", baseUrl + "/samples/450.wav"),
      Voice("Lucy", "545", baseUrl + "/samples/545.wav"),
      Voice("John", "581", baseUrl + "/samples/581.wav"),
      Voice("Richard", "572", baseUrl + "/samples/572.wav") ]
  }

  /** The sample warmer's catalog: seven greetings "Hello, my name is
      <name>", each rendered to `<voice_id>.wav`, with distinct voice ids
      and greetings free of single quotes. */
  function Samples(): (ss: seq<Sample>)
    ensures |ss| == 7
  {
    [ Sample("Emily", "372", "Hello, my name is Emily", "372.wav"),
      Sample("Julie", "115", "Hello, my name is Julie", "115.wav"),
      Sample("Manon", "450", "Hello, my name is Manon", "450.wav"),
      Sample("Lucy", "545", "Hello, my name is Lucy", "545.wav"),
      Sample("John", "581", "Hello, my name is John", "581.wav"),
      Sample("Richard", "572", "Hello, my name is Richard", "572.wav"),
      Sample("Peter", "541", "Hello, my name is Peter", "541.wav") ]
  }

  /** Each catalog text is the greeting for its name. */
  lemma SamplesGreet()
    ensures forall i :: 0 <= i < |Samples()| ==> Samples()[i].text == "Hello, my name is " + Samples()[i].name
  {
    var ss := Samples();
    var hello := "Hello, my name is ";
    assert ss[0].text == hello + "Emily";
    assert ss[1].text == hello + "Julie";
    assert ss[2].text == hello + "Manon";
    assert ss[3].text == hello + "Lucy";
    assert ss[4].text == hello + "John";
    assert ss[5].text == hello + "Richard";
    assert ss[6].text == hello + "Peter";
  }

  /** Cleaning leaves a text written in plain characters as it is. */
  lemma PlainTextUnchanged(t: string)
    requires forall c :: c in t ==> Plain(c)
    ensures Sanitize(t) == t
  {
    assert '*' !in t;
    forall i | 0 <= i < |t|
      ensures t[i] !in Forbidden
    {
      assert t[i] in t;
    }
    Js.RemoveAllNoop(t, Forbidden);
  }

  /** Every greeting is written in plain characters. */
  lemma SamplesArePlain()
    ensures forall i, c :: 0 <= i < |Samples()| && c in Samples()[i].text ==> Plain(c)
  {
    SamplesGreet();
    assert forall i, c :: 0 <= i < |Samples()| && c in Samples()[i].name ==> Plain(c);
    forall i | 0 <= i < |Samples()|
      ensures forall c :: c in Samples()[i].text ==> Plain(c)
    {
      GreetingIsPlain(Samples()[i].name);
    }
  }

  /** No greeting holds a character the handler would strip. */
  lemma SamplesAreClean()
    ensures forall s :: s in Samples() ==> Sanitize(s.text) == s.text
  {
    SamplesArePlain();
    forall s | s in Samples()
      ensures Sanitize(s.text) == s.text
    {
      var i :| 0 <= i < |Samples()| && Samples()[i] == s;
      PlainTextUnchanged(s.text);
    }
  }

  /** Each catalog file is named after its voice id, and the voice ids, hence
      the files, are distinct. */
  lemma SamplesNamedByVoice()
    ensures forall i :: 0 <= i < |Samples()| ==> Samples()[i].output == Samples()[i].voiceId + ".wav"
    ensures forall i, j :: 0 <= i < j < |Samples()| ==> Samples()[i].output != Samples()[j].output
  {
    var ss := Samples();
    assert ss[0].output == "372" + ".wav";
    assert ss[1].output == "115" + ".wav";
    assert ss[2].output == "450" + ".wav";
    assert ss[3].output == "545" + ".wav";
    assert ss[4].output == "581" + ".wav";
    assert ss[5].output == "572" + ".wav";
    assert ss[6].output == "541" + ".wav";
  }

  /** Every advertised speaker has a catalog entry of the same name whose
      file is the one its preview URL names; the catalog's last entry,
      Peter (541), is generated but never advertised. */
  lemma SpeakersHaveSamples(baseUrl: string)
    ensures forall i :: 0 <= i < |Speakers(baseUrl)| ==>
              Samples()[i].name == Speakers(baseUrl)[i].name
              && Samples()[i].voiceId == Speakers(baseUrl)[i].voiceId
              && Speakers(baseUrl)[i].previewUrl == baseUrl + "/samples/" + Samples()[i].output
    ensures forall v :: v in Speakers(baseUrl) ==> v.voiceId != Samples()[6].voiceId
  {
  }

  /** The command builder as the warmer calls it. */
  function Builder(env: Env): (string, string, string) -> string
  {
    (text, voiceId, outputFile) => GetPiperCommand(env, text, voiceId, outputFile)
  }

  /** `checkAndGenerateSamples()`: walks the catalog in order and issues the
      generation command of each entry whose file is not among `existing`. */
  method CheckAndGenerateSamples(env: Env, existing: set<string>) returns (issued: seq<string>)
    ensures issued == SampleCommands(env, Samples(), existing, Builder(env))
  {
    var samples := Samples();
    var samplesDir := SamplesDir(env);
    issued := [];
    for i := 0 to |samples|
      invariant issued == SampleCommands(env, samples[..i], existing, Builder(env))
    {
      var outputFile := PathJoin(env.platform, samplesDir, samples[i].output);
      if outputFile !in existing {
        issued := issued + [GetPiperCommand(env, samples[i].text, samples[i].voiceId, outputFile)];
      }
      assert samples[..i + 1][..i] == samples[..i];
    }
    assert samples[..|samples|] == samples;
  }

  /** Each warmer command quotes exactly its greeting. */
  lemma WarmerCommandsQuoteGreetings(env: Env, existing: set<string>)
    ensures var m := MissingSamples(env, Samples(), existing);
            var cmds := SampleCommands(env, Samples(), existing, Builder(env));
            |cmds| == |m| &&
            forall k :: 0 <= k < |m| ==>
              QuotedSpan(cmds[k], '\'').Some? && QuotedSpan(cmds[k], '\'').value.inside == m[k].text
  {
    var m := MissingSamples(env, Samples(), existing);
    SampleCommandsForMissing(env, Samples(), existing, Builder(env));
    forall k | 0 <= k < |m|
      ensures QuotedSpan(GetPiperCommand(env, m[k].text, m[k].voiceId, SamplePath(env, m[k])), '\'').Some?
           && QuotedSpan(GetPiperCommand(env, m[k].text, m[k].voiceId, SamplePath(env, m[k])), '\'').value.inside == m[k].text
    {
      assert m[k] in Samples();
      SamplesAreClean();
      CleanHasNoQuote(Sanitize(m[k].text));
      TextIsSingleQuoted(env, m[k].text, m[k].voiceId, SamplePath(env, m[k]));
    }
  }
}
