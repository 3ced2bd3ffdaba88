/** What both entry points share: the host environment they read (the
    platform reported by the operating system and the directory the code
    lives in), the paths derived from it, the voice the `/tts/generate`
    handler resolves, the request it receives, and the sample warmer's
    choice of which catalog entries need a generation command. */
module Piper {
  import opened Text
  import Js

  /** The values of `os.platform()` the command builders tell apart. */
  datatype Platform = Linux | Win32 | Darwin | Other

  /** The environment a handler runs in: the platform and `__dirname`. */
  datatype Env = Env(platform: Platform, dirname: string)

  /** The separator Node's `path.join` inserts: `\` on Windows, `/` elsewhere. */
  function Separator(p: Platform): char
  {
    if p == Win32 then '\\' else '/'
  }

  /** `path.join(dir, name)` for a directory and a plain file or folder name. */
  function PathJoin(p: Platform, dir: string, name: string): string
  {
    dir + [Separator(p)] + name
  }

  /** MODEL_PATH: `<__dirname>/models/en_US-libritts_r-medium.onnx`. */
  function ModelPath(env: Env): string
  {
    PathJoin(env.platform, PathJoin(env.platform, env.dirname, "models"), "en_US-libritts_r-medium.onnx")
  }

  /** OUTPUT_DIR: `<__dirname>/out`. */
  function OutputDir(env: Env): string
  {
    PathJoin(env.platform, env.dirname, "out")
  }

  /** The folder the sample warmer writes to: `<__dirname>/samples`. */
  function SamplesDir(env: Env): string
  {
    PathJoin(env.platform, env.dirname, "samples")
  }

  /** The file a `/tts/generate` request renders to, named after the fresh
      identifier `id`: a file `output-<id>.wav` below OUTPUT_DIR, and directly in it
      when `id` holds neither path separator, as a uuidv4 identifier does. */
  function OutputPath(env: Env, id: string): (path: string)
    ensures |OutputDir(env)| + 12 <= |path| && path[..|OutputDir(env)| + 1] == OutputDir(env) + [Separator(env.platform)]
    ensures path[|OutputDir(env)| + 1..|OutputDir(env)| + 8] == "output-" && path[|path| - 4..] == ".wav"
    ensures '/' !in id && '\\' !in id ==> '/' !in path[|OutputDir(env)| + 1..] && '\\' !in path[|OutputDir(env)| + 1..]
  {
    PathJoin(env.platform, OutputDir(env), "output-" + id + ".wav")
  }

  lemma CancelAround(p: string, x: string, y: string, s: string)
    requires p + x + s == p + y + s
    ensures x == y
  {
    assert |x| == |y|;
    assert x == (p + x + s)[|p|..|p| + |x|];
    assert y == (p + y + s)[|p|..|p| + |y|];
  }

  /** Requests carrying different identifiers never share an output file. */
  lemma OutputPathInjective(env: Env, id1: string, id2: string)
    requires OutputPath(env, id1) == OutputPath(env, id2)
    ensures id1 == id2
  {
    var p := OutputDir(env) + [Separator(env.platform)] + "output-";
    assert OutputPath(env, id1) == p + id1 + ".wav";
    assert OutputPath(env, id2) == p + id2 + ".wav";
    CancelAround(p, id1, id2, ".wav");
  }

  /** The form fields of a `/tts/generate` request; `voice` may be absent. */
  datatype Request = Request(text: string, voice: Option<string>)

  /** What a `/tts/generate` request makes the server do: render into
      `outputFile` by running the shell command line `command`. */
  datatype Job = Job(outputFile: string, command: string)

  /** A form field as `parseInt` sees it: an absent field converts to the
      string "undefined". */
  function FieldString(field: Option<string>): string
  {
    match field
    case None => "undefined"
    case Some(s) => s
  }

  /** `parseInt(req.body.voice, 1000) || 115`. The radix 1000 lies outside
      2..36, so parseInt gives NaN whatever the field holds, and the
      fallback 115 is the voice of every request. */
  function ResolveVoice(voice: Option<string>): (n: Js.Number)
    ensures n == Js.Int(115)
  {
    assert Js.ToInt32(1000) == 1000;
    Js.Or(Js.ParseInt(FieldString(voice), 1000), Js.Int(115))
  }

  /** The voice token interpolated into every generated command is "115". */
  lemma VoiceToken(voice: Option<string>)
    ensures Js.NumberToString(ResolveVoice(voice)) == "115"
  {
    assert Js.Decimal(1) == "1";
    assert Js.Decimal(11) == "11";
    assert Js.Decimal(115) == Js.Decimal(11) + "5";
  }

  /** A speaker the `/tts/speakers` route advertises. */
  datatype Voice = Voice(name: string, voiceId: string, previewUrl: string)

  /** An entry of the sample warmer's catalog. */
  datatype Sample = Sample(name: string, voiceId: string, text: string, output: string)

  /** The characters the catalogs' greetings are written in: letters,
      digits, the space and the comma. */
  predicate Plain(c: char)
  {
    ('a' <= c <= 'z') || ('A' <= c <= 'Z') || ('0' <= c <= '9') || c == ' ' || c == ','
  }

  /** A greeting for a plain name is plain. */
  lemma GreetingIsPlain(name: string)
    requires forall c :: c in name ==> Plain(c)
    ensures forall c :: c in "Hello, my name is " + name ==> Plain(c)
  {
  }

  /** Where a speaker's preview is served: `<baseURL>/samples/<voice_id>.wav`. */
  function PreviewUrl(baseUrl: string, voiceId: string): string
  {
    baseUrl + "/samples/" + voiceId + ".wav"
  }

  /** `path.join(samplesDir, sample.output)`. */
  function SamplePath(env: Env, s: Sample): string
  {
    PathJoin(env.platform, SamplesDir(env), s.output)
  }

  /** The catalog entries whose file is not among the existing paths, in
      catalog order. */
  function MissingSamples(env: Env, samples: seq<Sample>, existing: set<string>): (m: seq<Sample>)
    ensures forall s :: s in m <==> s in samples && SamplePath(env, s) !in existing
    ensures IsSubsequence(m, samples)
  {
    if samples == [] then []
    else
      var init := samples[..|samples| - 1];
      var last := samples[|samples| - 1];
      var m0 := MissingSamples(env, init, existing);
      assert samples == init + [last];
      SubsequenceAppend(m0, init, last);
      if SamplePath(env, last) in existing then m0 else m0 + [last]
  }

  /** The commands the sample warmer issues, in order, for a catalog, a set of
      existing files and the platform's command builder `build`, which takes
      the text, the voice id and the output file. */
  function SampleCommands(env: Env, samples: seq<Sample>, existing: set<string>,
                          build: (string, string, string) -> string): seq<string>
  {
    if samples == [] then []
    else
      var init := SampleCommands(env, samples[..|samples| - 1], existing, build);
      var s := samples[|samples| - 1];
      if SamplePath(env, s) in existing then init
      else init + [build(s.text, s.voiceId, SamplePath(env, s))]
  }

  /** The k-th command issued is the one for the k-th missing entry: one
      command per missing file, in catalog order, none for a file that exists. */
  lemma {:induction false} SampleCommandsForMissing(env: Env, samples: seq<Sample>, existing: set<string>,
                                                    build: (string, string, string) -> string)
    ensures var m := MissingSamples(env, samples, existing);
            var cmds := SampleCommands(env, samples, existing, build);
            |cmds| == |m| &&
            forall k :: 0 <= k < |m| ==> cmds[k] == build(m[k].text, m[k].voiceId, SamplePath(env, m[k]))
    decreases |samples|
  {
    if samples != [] {
      SampleCommandsForMissing(env, samples[..|samples| - 1], existing, build);
    }
  }

  /** Every command issued is for an entry whose file is missing, and every
      entry whose file is missing gets its command. */
  lemma SampleCommandsExactlyMissing(env: Env, samples: seq<Sample>, existing: set<string>,
                                     build: (string, string, string) -> string)
    ensures forall c :: c in SampleCommands(env, samples, existing, build) <==>
              exists s :: s in samples && SamplePath(env, s) !in existing
                          && c == build(s.text, s.voiceId, SamplePath(env, s))
  {
    var m := MissingSamples(env, samples, existing);
    var cmds := SampleCommands(env, samples, existing, build);
    SampleCommandsForMissing(env, samples, existing, build);
    forall c | c in cmds
      ensures exists s :: s in samples && SamplePath(env, s) !in existing
                          && c == build(s.text, s.voiceId, SamplePath(env, s))
    {
      var k :| 0 <= k < |cmds| && cmds[k] == c;
      assert m[k] in m;
    }
    forall s | s in samples && SamplePath(env, s) !in existing
      ensures build(s.text, s.voiceId, SamplePath(env, s)) in cmds
    {
      var k :| 0 <= k < |m| && m[k] == s;
      assert cmds[k] == build(s.text, s.voiceId, SamplePath(env, s));
    }
  }

  /** The warmer issues nothing exactly when every entry's file exists. */
  lemma {:induction false} NoCommandsWhenAllExist(env: Env, samples: seq<Sample>, existing: set<string>,
                                                  build: (string, string, string) -> string)
    ensures SampleCommands(env, samples, existing, build) == []
            <==> forall s :: s in samples ==> SamplePath(env, s) in existing
  {
    var m := MissingSamples(env, samples, existing);
    SampleCommandsForMissing(env, samples, existing, build);
    if m != [] {
      assert m[0] in m;
    }
  }

  /** Running the warmer again once the first run's files have all appeared
      issues no command. */
  lemma SecondRunIssuesNothing(env: Env, samples: seq<Sample>, existing: set<string>,
                               build: (string, string, string) -> string)
    ensures var written := set s | s in MissingSamples(env, samples, existing) :: SamplePath(env, s);
            SampleCommands(env, samples, existing + written, build) == []
  {
    var written := set s | s in MissingSamples(env, samples, existing) :: SamplePath(env, s);
    forall s | s in samples
      ensures SamplePath(env, s) in existing + written
    {
      if SamplePath(env, s) !in existing {
        assert s in MissingSamples(env, samples, existing);
      }
    }
    NoCommandsWhenAllExist(env, samples, existing + written, build);
  }
}
