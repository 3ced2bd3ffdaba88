/** The standalone entry point `server.js`: its command builder, which wraps
    the text, the model path and the output file in double quotes, the
    `/tts/generate` handler, which only drops the first `*` of the text, its
    speaker list and its sample warmer. */
module StandaloneServer {
  import opened Text
  import Js
  import opened Piper

  /** The handler's text cleaning: the first `*` goes and nothing else. */
  function Sanitize(text: string): (clean: string)
    ensures IsSubsequence(clean, text)
    ensures '*' !in text ==> clean == text
    ensures '*' in text ==> exists i :: (0 <= i < |text| && text[i] == '*' && '*' !in text[..i]
                                         && clean == text[..i] + text[i + 1..])
  {
    Js.RemoveFirst(text, '*')
  }

  /** Every character other than `*` reaches the command as often as the
      request holds it, quotes, backslashes, backticks and semicolons
      included; of the asterisks exactly one goes when there is any. */
  lemma SanitizeKeepsShellCharacters(text: string)
    ensures forall c :: c != '*' ==> multiset(Sanitize(text))[c] == multiset(text)[c]
    ensures multiset(Sanitize(text))['*'] == if '*' in text then multiset(text)['*'] - 1 else 0
  {
    if '*' !in text {
      assert multiset(text)['*'] == 0;
    }
  }

  /** The echo command and the Piper executable `getPiperCommand` picks:
      Windows' are the defaults, Linux and macOS name `.\piper\piper`, and
      only Linux asks echo to interpret backslash escapes. The names are the
      strings the source writes. On Linux and macOS the word is unquoted, so
      `/bin/sh` drops its backslashes and looks `.piperpiper` up on the PATH
      instead of running a script under the working directory. */
  function Launcher(env: Env): (r: (string, string))
    ensures env.platform == Linux ==> r == ("echo -e", ".\\piper\\piper")
    ensures env.platform == Darwin ==> r == ("echo", ".\\piper\\piper")
    ensures env.platform in {Win32, Other} ==> r == ("echo", ".\\piper\\win\\piper.exe")
  {
    var windows := ".\\piper\\win\\piper.exe";
    if env.platform == Linux then ("echo -e", ".\\piper\\piper")
    else if env.platform == Win32 then ("echo", windows)
    else if env.platform == Darwin then ("echo", ".\\piper\\piper")
    else ("echo", windows)
  }

  /** `getPiperCommand(text, voiceId, outputFile)`: echo the text in double
      quotes and pipe it into Piper with the model path and the output file
      in double quotes and the speaker as a bare word. */
  function GetPiperCommand(env: Env, text: string, voiceId: string, outputFile: string): string
  {
    Launcher(env).0 + " " + "\"" + text + "\"" + CommandTail(env, voiceId, outputFile)
  }

  /** What `getPiperCommand` writes after the double quote that closes the
      text: the pipe into Piper and its three options. */
  function CommandTail(env: Env, voiceId: string, outputFile: string): string
  {
    " | " + Launcher(env).1 + " -m \"" + ModelPath(env) + "\" -s " + voiceId + " -f \"" + outputFile + "\""
  }

  /** When the text holds no `"`, the command's first two double quote
      characters enclose exactly the text and the tail follows them. When
      the text also holds no `\`, `$` or backtick, every POSIX shell ends
      its quoted word there too. */
  lemma TextIsDoubleQuoted(env: Env, text: string, voiceId: string, outputFile: string)
    requires '"' !in text
    ensures QuotedSpan(GetPiperCommand(env, text, voiceId, outputFile), '"')
         == Some(Segments(Launcher(env).0 + " ", text, CommandTail(env, voiceId, outputFile)))
  {
    QuotedSpanOf(Launcher(env).0 + " ", text, CommandTail(env, voiceId, outputFile), '"');
  }

  /** Nothing escapes the text: the first `"` in it is the command's second
      double quote character, so the region between the first two holds only
      the part `head` of the text before it, and the rest of the text comes
      after. When `head` holds no `\`, `$` or backtick, every POSIX shell
      closes its quoted word at that `"` as well and reads the rest as shell
      syntax. */
  lemma DoubleQuoteEndsQuotedText(env: Env, head: string, rest: string, voiceId: string, outputFile: string)
    requires '"' !in head
    ensures QuotedSpan(GetPiperCommand(env, head + ['"'] + rest, voiceId, outputFile), '"')
         == Some(Segments(Launcher(env).0 + " ", head, rest + ['"'] + CommandTail(env, voiceId, outputFile)))
  {
    QuotedSpanEndsEarly(GetPiperCommand(env, head + ['"'] + rest, voiceId, outputFile),
                        Launcher(env).0 + " ", head, rest, CommandTail(env, voiceId, outputFile), '"');
  }

  /** `/tts/generate` up to the command it executes: drop the first `*`,
      resolve the voice, name a fresh output file after `id`, build the
      command. */
  function GenerateJob(env: Env, req: Request, id: string): (job: Job)
    ensures job.outputFile == OutputPath(env, id)
    ensures job.command == GetPiperCommand(env, Sanitize(req.text), "115", OutputPath(env, id))
  {
    var text := Sanitize(req.text);
    var voice := ResolveVoice(req.voice);
    var outputFile := OutputPath(env, id);
    VoiceToken(req.voice);
    Job(outputFile, GetPiperCommand(env, text, Js.NumberToString(voice), outputFile))
  }

  /** A request whose text, after the `*` step, holds no `"` has exactly
      that text in the command's double-quoted region, with the voice 115
      and the output file in the tail. */
  lemma RequestTextDoubleQuoted(env: Env, req: Request, id: string)
    requires '"' !in Sanitize(req.text)
    ensures QuotedSpan(GenerateJob(env, req, id).command, '"')
            == Some(Segments(Launcher(env).0 + " ", Sanitize(req.text), CommandTail(env, "115", OutputPath(env, id))))
  {
    var job := GenerateJob(env, req, id);
    assert job.command == GetPiperCommand(env, Sanitize(req.text), "115", OutputPath(env, id));
    TextIsDoubleQuoted(env, Sanitize(req.text), "115", OutputPath(env, id));
  }

  /** A request whose text, after the `*` step, is `head`, a `"`, then
      `rest` gets only `head` between the command's first two double quote
      characters; `rest` comes after them, outside the shell's quoted word
      whenever `head` holds no `\`, `$` or backtick. */
  lemma RequestTextBreaksOut(env: Env, req: Request, id: string, head: string, rest: string)
    requires Sanitize(req.text) == head + ['"'] + rest && '"' !in head
    ensures QuotedSpan(GenerateJob(env, req, id).command, '"')
            == Some(Segments(Launcher(env).0 + " ", head, rest + ['"'] + CommandTail(env, "115", OutputPath(env, id))))
  {
    var job := GenerateJob(env, req, id);
    assert job.command == GetPiperCommand(env, head + ['"'] + rest, "115", OutputPath(env, id));
    DoubleQuoteEndsQuotedText(env, head, rest, "115", OutputPath(env, id));
  }

  /** A shell command smuggled in by the request below. */
  const Injected: string := "; touch pwned; "

  /** The text `"; touch pwned; "`. */
  const Breakout: string := ['"'] + (Injected + ['"'])

  /** The `*` step leaves the breakout text as it is. */
  lemma BreakoutSurvivesSanitize()
    ensures Sanitize(Breakout) == Breakout
  {
    assert '*' !in Injected;
    assert '*' !in Breakout;
  }

  /** A counterexample to quote safety: on Linux, whatever the voice field,
      the text `"; touch pwned; "` leaves the double-quoted region empty and
      puts `; touch pwned; ` right after it. The region is empty and the
      echo command before it is `echo -e`, so it holds no `\`, `$` or
      backtick and every POSIX shell closes its quoted word there. For a
      `__dirname` and an identifier holding no `"`, `\`, `$` or backtick,
      which keep the quoted model path and output file well formed, the
      shell then runs `touch pwned` as a command of its own. */
  lemma QuoteBreakout(dirname: string, voice: Option<string>, id: string)
    ensures var env := Env(Linux, dirname);
            QuotedSpan(GenerateJob(env, Request(Breakout, voice), id).command, '"')
            == Some(Segments(Launcher(env).0 + " ", [], Injected + ['"'] + ['"'] + CommandTail(env, "115", OutputPath(env, id))))
    ensures Launcher(Env(Linux, dirname)).0 == "echo -e"
  {
    BreakoutSurvivesSanitize();
    assert Breakout == [] + ['"'] + (Injected + ['"']);
    RequestTextBreaksOut(Env(Linux, dirname), Request(Breakout, voice), id, [], Injected + ['"']);
  }

  /** `/tts/speakers`: four speakers, each previewed at its sample file under
      `<baseURL>/samples/`. */
  function Speakers(baseUrl: string): (vs: seq<Voice>)
    ensures |vs| == 4
    ensures forall i :: 0 <= i < |vs| ==> vs[i].previewUrl == PreviewUrl(baseUrl, vs[i].voiceId)
  {
    [ Voice("Voice 372", "372", baseUrl + "/samples/372.wav"),
      Voice("Voice 115", "115", baseUrl + "/samples/115.wav"),
      Voice("Voice 450", "450", baseUrl + "/samples/450.wav"),
      Voice("Voice 545", "545", baseUrl + "/samples/545.wav") ]
  }

  /** The sample warmer's catalog. */
  function Samples(): (ss: seq<Sample>)
    ensures |ss| == 4
  {
    [ Sample("Voice 372", "372", "Hello, my name is Voice 372", "372.wav"),
      Sample("Voice 115", "115", "Hello, my name is Voice 115", "115.wav"),
      Sample("Voice 450", "450", "Hello, my name is Voice 450", "450.wav"),
      Sample("Voice 545", "545", "Hello, my name is Voice 545", "545.wav") ]
  }

  /** Each catalog text is the greeting for its name. */
  lemma SamplesGreet()
    ensures forall i :: 0 <= i < |Samples()| ==> Samples()[i].text == "Hello, my name is " + Samples()[i].name
  {
    var ss := Samples();
    var hello := "Hello, my name is ";
    assert ss[0].text == hello + "Voice 372";
    assert ss[1].text == hello + "Voice 115";
    assert ss[2].text == hello + "Voice 450";
    assert ss[3].text == hello + "Voice 545";
  }

  /** Each catalog file is named after its voice id, and the files are distinct. */
  lemma SamplesNamedByVoice()
    ensures forall i :: 0 <= i < |Samples()| ==> Samples()[i].output == Samples()[i].voiceId + ".wav"
    ensures forall i, j :: 0 <= i < j < |Samples()| ==> Samples()[i].output != Samples()[j].output
  {
    var ss := Samples();
    assert ss[0].output == "372" + ".wav";
    assert ss[1].output == "115" + ".wav";
    assert ss[2].output == "450" + ".wav";
    assert ss[3].output == "545" + ".wav";
  }

  /** The speakers and the catalog list the same voices in the same order,
      and every preview URL names the file the warmer writes for it. */
  lemma SpeakersHaveSamples(baseUrl: string)
    ensures |Speakers(baseUrl)| == |Samples()|
    ensures forall i :: 0 <= i < |Speakers(baseUrl)| ==>
              Samples()[i].name == Speakers(baseUrl)[i].name
              && Samples()[i].voiceId == Speakers(baseUrl)[i].voiceId
              && Speakers(baseUrl)[i].previewUrl == baseUrl + "/samples/" + Samples()[i].output
  {
  }

  /** Every greeting is written in plain characters. */
  lemma SamplesArePlain()
    ensures forall i, c :: 0 <= i < |Samples()| && c in Samples()[i].text ==> Plain(c)
  {
    SamplesGreet();
    assert forall i, c :: 0 <= i < |Samples()| && c in Samples()[i].name ==> Plain(c);
    forall i | 0 <= i < |Samples()|
      ensures forall c :: c in Samples()[i].text ==> Plain(c)
    {
      GreetingIsPlain(Samples()[i].name);
    }
  }

  /** The command builder as the warmer calls it. */
  function Builder(env: Env): (string, string, string) -> string
  {
    (text, voiceId, outputFile) => GetPiperCommand(env, text, voiceId, outputFile)
  }

  /** `checkAndGenerateSamples()`: walks the catalog in order and issues the
      generation command of each entry whose file is not among `existing`. */
  method CheckAndGenerateSamples(env: Env, existing: set<string>) returns (issued: seq<string>)
    ensures issued == SampleCommands(env, Samples(), existing, Builder(env))
  {
    var samples := Samples();
    var samplesDir := SamplesDir(env);
    issued := [];
    for i := 0 to |samples|
      invariant issued == SampleCommands(env, samples[..i], existing, Builder(env))
    {
      var outputFile := PathJoin(env.platform, samplesDir, samples[i].output);
      if outputFile !in existing {
        issued := issued + [GetPiperCommand(env, samples[i].text, samples[i].voiceId, outputFile)];
      }
      assert samples[..i + 1][..i] == samples[..i];
    }
    assert samples[..|samples|] == samples;
  }

  /** Each warmer command double-quotes exactly its greeting, which holds no
      `"` of its own. */
  lemma WarmerCommandsQuoteGreetings(env: Env, existing: set<string>)
    ensures var m := MissingSamples(env, Samples(), existing);
            var cmds := SampleCommands(env, Samples(), existing, Builder(env));
            |cmds| == |m| &&
            forall k :: 0 <= k < |m| ==>
              QuotedSpan(cmds[k], '"').Some? && QuotedSpan(cmds[k], '"').value.inside == m[k].text
  {
    var m := MissingSamples(env, Samples(), existing);
    SampleCommandsForMissing(env, Samples(), existing, Builder(env));
    SamplesArePlain();
    forall k | 0 <= k < |m|
      ensures QuotedSpan(GetPiperCommand(env, m[k].text, m[k].voiceId, SamplePath(env, m[k])), '"').Some?
           && QuotedSpan(GetPiperCommand(env, m[k].text, m[k].voiceId, SamplePath(env, m[k])), '"').value.inside == m[k].text
    {
      assert m[k] in Samples();
      var i :| 0 <= i < |Samples()| && Samples()[i] == m[k];
      assert '"' !in m[k].text by {
        assert !Plain('"');
      }
      TextIsDoubleQuoted(env, m[k].text, m[k].voiceId, SamplePath(env, m[k]));
    }
  }
}
