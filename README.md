# SillyTavern-Piper-TTS: request-to-command logic

SillyTavern-Piper-TTS is a small Express service for SillyTavern. It turns a
text-to-speech request into one shell pipeline, `echo <text> | piper ...`,
and runs it. The repository holds the same logic twice, and this project
models both copies as separate modules so the places where they differ stay
visible:

- `index.js` is the plugin entry point (module `PluginIndex`).
- `server.js` is the standalone server (module `StandaloneServer`).

For each entry point the model covers five pieces:

- the text cleaning of the `/tts/generate` handler;
- the voice resolution `parseInt(req.body.voice, 1000) || 115`;
- the command builder `getPiperCommand` for every platform;
- the sample warmer `checkAndGenerateSamples`, which decides which
  generation commands are issued;
- the speaker list of `/tts/speakers`.

The `TtsService` class is the same in both files, so it is modelled once
(module `Service`).

Shared modules:

- `Text`: finding a character; subsequences; and `QuotedSpan`, which cuts a
  command line at its first two quote characters. For single quotes that
  cut is where a POSIX shell ends a quoted word. For double quotes every
  POSIX shell agrees with the cut when the text between the quotes holds no
  `\`, `$` or backtick, the only characters besides `"` that are special
  inside double quotes (section 2.2.3 of the POSIX Shell Command Language).
- `Js`: the ECMAScript built-ins the handlers rely on:
  - both forms of `String.prototype.replace` (one-character string pattern,
    global character class);
  - `parseInt` as ECMA-262 section 19.2.5 defines it (ToInt32 of the radix,
    white-space trimming, sign, radix guard, `0x` prefix, digit run);
  - the `||` fallback;
  - Number-to-string conversion.
- `Piper`: what both entry points share:
  - the platform and `__dirname`, taken as parameters;
  - `path.join` and the paths derived from it (MODEL_PATH, OUTPUT_DIR, the
    samples folder, the per-request output file);
  - the resolved voice;
  - the catalog datatypes;
  - the specification of the warmer, `SampleCommands`, which both warmer
    methods are proved against.

Main results:

- In `index.js` the cleaned text holds none of `'` `"` `\` `/` `` ` `` `;`,
  so the characters between the command's first two single quotes are
  exactly the cleaned text. Where `/bin/sh` runs the command (every
  platform but Windows) the text is therefore one single-quoted word.
- In `server.js` only the first `*` is removed, and the text is put inside
  double quotes unescaped. A `"` in the text ends the quoted region early.
  A concrete request shows this: on Linux, `"; touch pwned; "` leaves the
  quoted region empty and puts `; touch pwned; ` outside the quotes, where
  the shell runs it.
- `parseInt` with radix 1000 always yields NaN, so every request is
  rendered with voice 115. The interpolated token is "115".
- Each warmer issues, in catalog order, exactly one command per catalog
  entry whose file is missing, and nothing once every file exists.

## Model

| member | source | states |
|---|---|---|
| Text.QuotedSpan | index.js:41 | the cut exists iff the command holds at least two quote characters; when it exists, before + quote + inside + quote + after rebuilds the command, and neither before nor inside holds the quote |
| Text.QuotedSpanOf | index.js:41 | the cut is unique: a command built as before, quote, inside, quote, after, with no quote in before or inside, is cut back into exactly those three parts |
| Text.QuotedSpanEndsEarly | server.js:39 | when the part placed between two quotes itself contains the quote, the region ends at the first such quote and holds only what precedes it; the rest follows the closing quote |
| Js.RemoveFirst | index.js:147 | `replace` with a string pattern removes the first occurrence when there is one, and only it: the result is the input without the character at the earliest position holding it, so later occurrences stay (length drops by one, the multiset loses one copy); otherwise nothing changes |
| Js.RemoveAll | index.js:149 | the global replace leaves no character of the class, keeps every other character's count, and never lengthens |
| Js.RemoveAllSubsequence | index.js:149 | the global replace keeps the order of what remains |
| Js.RemoveAllConcat | index.js:149 | the global replace of a concatenation is the concatenation of the global replaces of its parts |
| Js.RemoveAllNoop | index.js:149 | a text with no character of the class is returned unchanged |
| Js.RemoveAllIdempotent | index.js:149 | applying the global replace a second time changes nothing |
| Js.ToInt32 | index.js:151 | the radix is reduced into the signed 32-bit range, congruent to the argument modulo 2^32 |
| Js.ParseInt | index.js:151 | a radix whose ToInt32 is non-zero and outside 2..36 gives NaN; input that is empty after trimming gives NaN |
| Js.ParseIntOfToString | index.js:151-153 | converting an integer to a string and parsing it back in radix 10 gives the same integer |
| Piper.OutputPath | index.js:152 | the output file is OUTPUT_DIR, a separator, then a name that starts with `output-` and ends in `.wav`; when the identifier holds neither `/` nor `\`, neither does the name, so the file lies directly in OUTPUT_DIR |
| Piper.OutputPathInjective | server.js:142 | different request identifiers never share an output file |
| Piper.ResolveVoice | index.js:151 | the resolved voice is 115 whatever the voice field holds or whether it is present |
| Piper.VoiceToken | server.js:141-143 | the voice interpolated into the command is the string "115" |
| Piper.MissingSamples | index.js:131-134 | an entry is missing iff it is in the catalog and its path is not among the existing files; missing entries keep catalog order |
| Piper.SampleCommandsForMissing | index.js:131-143 | the warmer issues one command per missing entry, in catalog order, the k-th for the k-th missing entry |
| Piper.SampleCommandsExactlyMissing | server.js:124-134 | a command is issued iff it is the command of some catalog entry whose file does not exist |
| Piper.NoCommandsWhenAllExist | index.js:133 | the warmer issues nothing iff every catalog file exists |
| Piper.SecondRunIssuesNothing | index.js:131-143 | once the files of the first run exist, a second run issues nothing |
| PluginIndex.Sanitize | index.js:147-149 | the cleaned text contains none of `'` `"` `\` `/` `` ` `` `;` |
| PluginIndex.SanitizeFilterIdempotent | index.js:149 | filtering the cleaned text again changes nothing |
| PluginIndex.SanitizeOnlyDeletes | index.js:147-149 | cleaning only deletes: the result is a subsequence of the input and never longer |
| PluginIndex.SanitizeKeeps | index.js:147-149 | every character that is neither forbidden nor `*` keeps its count; `*` loses exactly one occurrence when present, so later asterisks survive |
| PluginIndex.SanitizeDropsFirstStar | index.js:147-149 | when the text holds a `*`, the cleaned text is the filtered part before its first `*` followed by the filtered part after it, later asterisks included |
| PluginIndex.SanitizeNotIdempotent | index.js:147 | the whole cleaning is not idempotent: "**" becomes "*", then "" |
| PluginIndex.Launcher | index.js:29-39 | linux gives `echo -e` and `piper`; darwin gives `echo` and `piper`; win32 and every other platform give `echo` and `__dirname + "\piper.exe"` |
| PluginIndex.TextIsSingleQuoted | index.js:41 | for a text without `'`, the command's first two single quotes enclose exactly the text; the echo command is before them and the fixed tail with model, voice and output file is after them |
| PluginIndex.GenerateJob | index.js:147-153 | the job renders to the fresh output file, and its command is the command for the cleaned text with voice "115" |
| PluginIndex.RequestTextStaysQuoted | index.js:147-153 | for every request, the single-quoted region of the command is exactly the cleaned text, which holds no quote or backslash, and the rest of the line does not depend on the text |
| PluginIndex.Speakers | index.js:99-112 | six speakers, each preview URL being `<baseURL>/samples/<voice_id>.wav` |
| PluginIndex.Samples | index.js:122-130 | the catalog has seven entries |
| PluginIndex.SamplesGreet | index.js:123-129 | each catalog text is "Hello, my name is " + its name |
| PluginIndex.PlainTextUnchanged | index.js:147-149 | cleaning leaves a text of letters, digits, spaces and commas unchanged |
| PluginIndex.SamplesArePlain | index.js:123-129 | every catalog greeting is made of letters, digits, spaces and commas |
| PluginIndex.SamplesAreClean | index.js:123-129 | the handler's cleaning would leave every catalog greeting unchanged |
| PluginIndex.SamplesNamedByVoice | index.js:123-129 | each catalog file is `<voice_id>.wav`, and the files are pairwise distinct |
| PluginIndex.SpeakersHaveSamples | index.js:101-129 | each speaker has the catalog entry of the same index, name and voice id, and its preview URL names that entry's file; Peter (541) is generated but never advertised |
| PluginIndex.CheckAndGenerateSamples | index.js:117-144 | the commands the loop issues are exactly `SampleCommands` of the catalog |
| PluginIndex.WarmerCommandsQuoteGreetings | index.js:131-134 | each warmer command single-quotes exactly the greeting of its missing entry |
| StandaloneServer.Sanitize | server.js:140 | cleaning only deletes: a text without `*` is unchanged, and otherwise exactly the first `*` is removed |
| StandaloneServer.SanitizeKeepsShellCharacters | server.js:140 | every character other than `*`, quotes, backslashes, backticks and semicolons included, keeps its count; `*` loses exactly one occurrence when present |
| StandaloneServer.Launcher | server.js:27-37 | linux gives `echo -e` and `.\piper\piper`; darwin gives `echo` and `.\piper\piper`; win32 and every other platform give `echo` and `.\piper\win\piper.exe` |
| StandaloneServer.TextIsDoubleQuoted | server.js:39 | for a text without `"`, the command's first two double quote characters enclose exactly the text, followed by the tail with the quoted model path, the bare voice and the quoted output file |
| StandaloneServer.DoubleQuoteEndsQuotedText | server.js:39 | for a text `head + "\"" + rest` with no `"` in head, the double-quoted region holds only head, and rest follows the closing quote |
| StandaloneServer.GenerateJob | server.js:140-143 | the job renders to the fresh output file, and its command is the command for the text without its first `*`, with voice "115" |
| StandaloneServer.RequestTextDoubleQuoted | server.js:140-143 | a request whose text, after the `*` step, has no `"` gets exactly that text double-quoted |
| StandaloneServer.RequestTextBreaksOut | server.js:140-143 | a request whose text, after the `*` step, contains `"` gets only the part before its first `"` quoted; the remainder lands outside the quotes |
| StandaloneServer.BreakoutSurvivesSanitize | server.js:140 | the `*` step leaves the text `"; touch pwned; "` unchanged |
| StandaloneServer.QuoteBreakout | server.js:139-143 | on Linux, for any voice field, the request text `"; touch pwned; "` leaves the quoted region empty after `echo -e`, and `; touch pwned; ` follows it; the empty region holds no `\`, `$` or backtick, so for a `__dirname` and identifier free of `"`, `\`, `$` and backticks the shell runs it as a command |
| StandaloneServer.Speakers | server.js:98-108 | four speakers, each preview URL being `<baseURL>/samples/<voice_id>.wav` |
| StandaloneServer.Samples | server.js:118-123 | the catalog has four entries |
| StandaloneServer.SamplesGreet | server.js:119-122 | each catalog text is "Hello, my name is " + its name |
| StandaloneServer.SamplesNamedByVoice | server.js:119-122 | each catalog file is `<voice_id>.wav`, and the files are pairwise distinct |
| StandaloneServer.SpeakersHaveSamples | server.js:100-122 | the speakers and the catalog list the same voices in the same order, and each preview URL names the warmer's file |
| StandaloneServer.SamplesArePlain | server.js:119-122 | every catalog greeting is made of letters, digits, spaces and commas |
| StandaloneServer.CheckAndGenerateSamples | server.js:113-137 | the commands the loop issues are exactly `SampleCommands` of the catalog |
| StandaloneServer.WarmerCommandsQuoteGreetings | server.js:124-134 | each warmer command double-quotes exactly the greeting of its missing entry |
| Service.Keys | index.js:58-60 | the keys of the language table, in insertion order |
| Service.TtsService.constructor | index.js:48-51 | a new service has the English/German table and an empty session path (server.js:47-50 is identical) |
| Service.TtsService.InitSessionsPath | index.js:53-56 | records the path and leaves the language table unchanged |
| Service.TtsService.GetLanguages | index.js:58-60 | returns the table's keys in order, which are "en" then "de" for every service |
| Service.TtsService.LoadModel | index.js:62-64 | changes nothing |

## Left out

- HTTP plumbing is not modelled: Express routing, middleware, CORS, body parsing, `multer`, `app.listen`, and the `init`/`exit` promises and `info` export of `index.js`.
- Processes are not modelled. `exec` and its asynchronous callbacks, `sendFile` streaming and the `unlink` of the output file are left out. A generated command is a `Job` value, and a warmer command is an element of the returned sequence.
- File-system state is an input. `existsSync` becomes the `existing` set of paths; the `mkdirSync` calls are left out.
- Values the environment supplies are parameters: `uuidv4()` is the `id` argument, `os.platform()` is the `Platform` field of `Env`, `__dirname` is its `dirname`, and `req.protocol`/`req.get('host')` are the `baseUrl` argument.
- Logging is left out: every `console.log` and `console.error`, including the "Sample exists" line that runs for every entry.
- A missing `text` field makes `req.body.text.replace` throw a TypeError. That crash is not modelled: the request text is always a string.
- Piper.PathJoin: this is concatenation with the platform separator. `path.join`'s normalisation of `..`, `.` and repeated separators is not modelled.
- Strings are sequences of Dafny characters (Unicode scalar values), not UTF-16 code units, so surrogate pairs are not modelled.
- Js.Number: it holds only NaN and integers. `-0` is folded into `0`, and the 53-bit precision of large parsed values is not modelled.
- Js.ParseInt: a radix is modelled only as an integer. The ToNumber and ToString coercions of non-string arguments are not modelled.
- Js.NumberToString: the exponent form used for magnitudes of 10^21 and above is not modelled.
- In `server.js`, `/samples` serves the relative folder `./samples/` while the warmer writes to `__dirname/samples`. Which files are served is not modelled.
- StandaloneServer.QuoteBreakout: the shell is modelled only as far as where a quoted word ends. For this text the region is empty, so it holds no `\`, `$` or backtick and the cut is the shell's. The shell runs the injected command only when `__dirname` and the identifier hold no `"`, `\`, `$` or backtick; otherwise the quoted model path or output file may leave the line malformed. Expansion of `$` and backticks inside double quotes, which other texts could use, is not modelled.
- StandaloneServer.TextIsDoubleQuoted, StandaloneServer.DoubleQuoteEndsQuotedText, StandaloneServer.RequestTextDoubleQuoted, StandaloneServer.RequestTextBreaksOut: these state where the command's first two `"` characters are, not where `/bin/sh` ends the quoted word. Inside double quotes, `\`, `$` and backtick are special. A `"` after an odd run of backslashes is a literal quote, and a substitution opened with `$` or a backtick (in bash also `$[`) makes the shell read on past a `"` until it closes. When the quoted text holds none of the three, every POSIX shell ends its word at the cut. For other texts, the shell's word may run on past the cut: into the tail for `TextIsDoubleQuoted`, or past the text's first `"` for `DoubleQuoteEndsQuotedText`. Neither the shell's backslash escapes nor its substitutions are modelled.
- PluginIndex.RequestTextStaysQuoted: the single-quoted word holds only where `/bin/sh` runs the command, which Node's `exec` does on every platform but Windows. On Windows `cmd.exe` runs it. There `'` does not quote, and `&`, `|`, `<`, `>`, `^` and `%` survive the cleaning (`PluginIndex.SanitizeKeeps`) and would be interpreted. `cmd.exe` is not modelled.
- StandaloneServer.Launcher: the model keeps the executable names as the source writes them. On Linux and macOS the unquoted word `.\piper\piper` loses its backslashes in `/bin/sh` and is looked up on the PATH as `.piperpiper`. It is not a script under the working directory, as the source's comment intends. The shell's word processing is not modelled, so no lemma states this.
- On every platform other than linux, win32 and darwin, both `getPiperCommand` variants keep their Windows defaults, because they start from those values and overwrite them only in the three named branches. The model follows the code here.
