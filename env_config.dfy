/**
 * API-key configuration: where the Groq key is looked up, what the "Apply
 * keys" button does to the session and the process environment, and how the
 * optional save rewrites the `.env` file. File contents are plain strings in
 * and out; reading and writing the file is not modelled.
 */
module EnvConfig {
  import opened Wrappers
  import opened Text

  const GroqKeyName := "GROQ_API_KEY"
  const Equals := "="
  const MissingKeyMessage := "GROQ_API_KEY not set. Add it to a local .env (ignored) or export it in your environment. See .env.example"

  // ---------------------------------------------------------------------------
  // Key lookup
  // ---------------------------------------------------------------------------

  /**
   * `_get_env_key(name)`: the session's value when it is a non-empty string,
   * otherwise the environment's (which may itself be absent or empty).
   * `session == None` stands for a session state that cannot be read.
   */
  function GetEnvKey(session: Option<map<string, string>>, environ: map<string, string>, name: string): (r: Option<string>)
    ensures session.Some? && name in session.value && session.value[name] != "" ==> r == Some(session.value[name])
    ensures !(session.Some? && name in session.value && session.value[name] != "") ==>
              r == (if name in environ then Some(environ[name]) else None)
  {
    var val := if session.Some? && name in session.value then Some(session.value[name]) else None;
    if val.Some? && val.value != "" then val
    else if name in environ then Some(environ[name]) else None
  }

  /** The key field's initial text: the environment's key, or empty. */
  function SidebarDefault(environ: map<string, string>): (r: string)
    ensures GroqKeyName in environ ==> r == environ[GroqKeyName]
    ensures GroqKeyName !in environ ==> r == ""
  {
    if GroqKeyName in environ then environ[GroqKeyName] else ""
  }

  /**
   * The key field starts with what the lookup finds when the session holds
   * no usable value: the environment's key, or the empty text when the lookup
   * finds nothing.
   */
  lemma SidebarShowsLookup(session: Option<map<string, string>>, environ: map<string, string>)
    requires !(session.Some? && GroqKeyName in session.value && session.value[GroqKeyName] != "")
    ensures var key := GetEnvKey(session, environ, GroqKeyName);
      SidebarDefault(environ) == (if key.Some? then key.value else "")
  {
  }

  /** Session state and process environment as the "Apply keys" button sees them. */
  datatype Settings = Settings(session: map<string, string>, environ: map<string, string>)

  /** "Apply keys": a non-empty key goes into both the session and the environment; an empty one changes nothing. */
  function ApplyKeys(s: Settings, groqInput: string): (r: Settings)
    ensures groqInput == "" ==> r == s
    ensures groqInput != "" ==> (r.session == s.session[GroqKeyName := groqInput]
                                 && r.environ == s.environ[GroqKeyName := groqInput])
  {
    if groqInput != "" then
      Settings(s.session[GroqKeyName := groqInput], s.environ[GroqKeyName := groqInput])
    else s
  }

  /** The start-up check: the key the client is built with, or the configuration error that stops the app. */
  function ResolveApiKey(session: Option<map<string, string>>, environ: map<string, string>): (r: Result<string, string>)
    ensures r.Ok? <==> GetEnvKey(session, environ, GroqKeyName).Some? && GetEnvKey(session, environ, GroqKeyName).value != ""
    ensures r.Ok? ==> r.value != "" && Some(r.value) == GetEnvKey(session, environ, GroqKeyName)
    ensures r.Err? ==> r.error == MissingKeyMessage
  {
    var key := GetEnvKey(session, environ, GroqKeyName);
    if key.Some? && key.value != "" then Ok(key.value) else Err(MissingKeyMessage)
  }

  /** After applying a non-empty key, the lookup finds exactly that key and start-up succeeds with it. */
  lemma AppliedKeyIsUsed(s: Settings, groqInput: string)
    requires groqInput != ""
    ensures GetEnvKey(Some(ApplyKeys(s, groqInput).session), ApplyKeys(s, groqInput).environ, GroqKeyName) == Some(groqInput)
    ensures ResolveApiKey(Some(ApplyKeys(s, groqInput).session), ApplyKeys(s, groqInput).environ) == Ok(groqInput)
  {
  }

  /**
   * Once a non-empty key is applied, the field's default, which is computed
   * from the environment, is that key; an empty input leaves the default as
   * it was.
   */
  lemma SidebarShowsAppliedKey(s: Settings, groqInput: string)
    ensures groqInput != "" ==> SidebarDefault(ApplyKeys(s, groqInput).environ) == groqInput
    ensures groqInput == "" ==> SidebarDefault(ApplyKeys(s, groqInput).environ) == SidebarDefault(s.environ)
  {
  }

  /** Applying a key touches no other name, in the session or the environment. */
  lemma ApplyKeysTouchesOnlyGroqKey(s: Settings, groqInput: string, name: string)
    requires name != GroqKeyName
    ensures GetEnvKey(Some(ApplyKeys(s, groqInput).session), ApplyKeys(s, groqInput).environ, name)
         == GetEnvKey(Some(s.session), s.environ, name)
  {
  }

  /** An empty session value does not hide the environment's. */
  lemma EmptySessionValueFallsThrough(session: map<string, string>, environ: map<string, string>, name: string)
    requires name in session && session[name] == ""
    requires name in environ
    ensures GetEnvKey(Some(session), environ, name) == Some(environ[name])
  {
  }

  // ---------------------------------------------------------------------------
  // The .env file
  // ---------------------------------------------------------------------------

  /** An insertion-ordered dictionary: `keys` in first-insertion order, `values` the mapping. */
  datatype EnvFile = EnvFile(keys: seq<string>, values: map<string, string>)

  const Empty := EnvFile([], map[])

  predicate Valid(e: EnvFile)
  {
    (forall i, j :: 0 <= i < j < |e.keys| ==> e.keys[i] != e.keys[j])
    && e.values.Keys == set k | k in e.keys
  }

  /** `d[k] = v`: a new key goes last, an existing key keeps its place and takes the new value. */
  function Put(e: EnvFile, k: string, v: string): (r: EnvFile)
    requires Valid(e)
    ensures Valid(r)
    ensures r.values == e.values[k := v]
    ensures k in e.values ==> r.keys == e.keys
    ensures k !in e.values ==> r.keys == e.keys + [k]
  {
    if k in e.values then EnvFile(e.keys, e.values[k := v])
    else EnvFile(e.keys + [k], e.values[k := v])
  }

  /** `line.split("=", 1)`: the text before the first `=` and the text after it. */
  function SplitAtEquals(line: string): (r: (string, string))
    requires Contains(line, Equals)
    ensures r.0 + Equals + r.1 == line
    ensures '=' !in r.0
  {
    var i := Find(line, Equals, 0);
    FindSpec(line, Equals, 0);
    SplitAtEqualsSpec(line, i);
    (line[..i], line[i + 1..])
  }

  /** The first `=` splits its line into the text before it and the text after it. */
  lemma SplitAtEqualsSpec(line: string, i: nat)
    requires OccursAt(line, Equals, i)
    requires forall j :: 0 <= j < i ==> !OccursAt(line, Equals, j)
    ensures i < |line| && line[..i] + Equals + line[i + 1..] == line
    ensures '=' !in line[..i]
  {
    assert line[i] == '=' by { assert line[i..i + 1][0] == line[i]; }
    var joined := line[..i] + Equals + line[i + 1..];
    assert |joined| == |line|;
    forall t | 0 <= t < |line| ensures joined[t] == line[t] {
      if t < i {
        assert joined[t] == line[..i][t];
      } else if t > i {
        assert joined[t] == line[i + 1..][t - i - 1];
      }
    }
    NoEarlierSeparator(line, i);
  }

  /** No occurrence of `=` before `n` means no `=` character in the first `n`. */
  lemma NoEarlierSeparator(line: string, n: nat)
    requires n <= |line|
    requires forall j :: 0 <= j < n ==> !OccursAt(line, Equals, j)
    ensures '=' !in line[..n]
  {
    forall j | 0 <= j < n ensures line[j] != '=' {
      assert !OccursAt(line, Equals, j);
      assert line[j..j + 1] == [line[j]];
    }
  }

  /** A key without `=` is recovered exactly from its `key=value` line. */
  lemma SplitOfEntry(k: string, v: string)
    requires '=' !in k
    ensures Contains(k + Equals + v, Equals)
    ensures SplitAtEquals(k + Equals + v) == (k, v)
  {
    var line := k + Equals + v;
    assert line[|k|..|k| + 1] == Equals;
    assert OccursAt(line, Equals, |k|);
    forall j | 0 <= j < |k| ensures !OccursAt(line, Equals, j) {
      assert line[j..j + 1] == [k[j]];
    }
    FindIsNext(line, Equals, 0, |k|);
    assert line[..|k|] == k;
    assert line[|k| + 1..] == v;
  }

  /** One line of the existing file: lines with an `=` set a key, the rest are ignored. */
  function AddLine(e: EnvFile, line: string): (r: EnvFile)
    requires Valid(e)
    ensures Valid(r)
    ensures !Contains(line, Equals) ==> r == e
    ensures Contains(line, Equals) ==> r == Put(e, SplitAtEquals(line).0, SplitAtEquals(line).1)
  {
    if Contains(line, Equals) then
      var kv := SplitAtEquals(line);
      Put(e, kv.0, kv.1)
    else e
  }

  /** The dictionary after reading `lines` in order. */
  function ParseLines(lines: seq<string>): (r: EnvFile)
    ensures Valid(r)
    decreases |lines|
  {
    if |lines| == 0 then Empty
    else AddLine(ParseLines(lines[..|lines| - 1]), lines[|lines| - 1])
  }

  /** The dictionary the save writes: the existing file's entries, then the key if one was entered. */
  function MergedEnv(existing: Option<string>, groqInput: string): (r: EnvFile)
    ensures Valid(r)
  {
    var base := if existing.Some? then ParseLines(SplitLines(existing.value)) else Empty;
    if groqInput != "" then Put(base, GroqKeyName, groqInput) else base
  }

  function Entry(e: EnvFile, i: nat): (r: string)
    requires Valid(e) && i < |e.keys|
  {
    e.keys[i] + Equals + e.values[e.keys[i]]
  }

  /** One `key=value` line per entry, in dictionary order. */
  function EntryLines(e: EnvFile): (r: seq<string>)
    requires Valid(e)
    ensures |r| == |e.keys|
    ensures forall i :: 0 <= i < |r| ==> r[i] == Entry(e, i)
  {
    seq(|e.keys|, i requires 0 <= i < |e.keys| => Entry(e, i))
  }

  /** The file text: the entry lines joined by newlines, with no final newline. */
  function Serialize(e: EnvFile): (r: string)
    requires Valid(e)
  {
    Join(EntryLines(e), "\n")
  }

  /**
   * The save: read `existing` (None when there is no file) line by line into
   * the dictionary, set the entered key, and render the dictionary back.
   */
  method MergeEnvFile(existing: Option<string>, groqInput: string) returns (content: string)
    ensures content == Serialize(MergedEnv(existing, groqInput))
  {
    var env := Empty;
    if existing.Some? {
      var lines := SplitLines(existing.value);
      var i := 0;
      while i < |lines|
        invariant 0 <= i <= |lines|
        invariant env == ParseLines(lines[..i])
      {
        assert lines[..i + 1] == lines[..i] + [lines[i]];
        ParseSnoc(lines[..i], lines[i]);
        if Contains(lines[i], Equals) {
          var kv := SplitAtEquals(lines[i]);
          env := Put(env, kv.0, kv.1);
        }
        i := i + 1;
      }
      assert lines[..|lines|] == lines;
    }
    if groqInput != "" {
      env := Put(env, GroqKeyName, groqInput);
    }
    var out := WriteEntries(env);
    content := Join(out, "\n");
  }

  /** The generator of the write: one `key=value` line per entry, in dictionary order. */
  method WriteEntries(env: EnvFile) returns (out: seq<string>)
    requires Valid(env)
    ensures out == EntryLines(env)
  {
    out := [];
    var j := 0;
    while j < |env.keys|
      invariant 0 <= j <= |env.keys|
      invariant |out| == j
      invariant forall t :: 0 <= t < j ==> out[t] == Entry(env, t)
    {
      var k := env.keys[j];
      out := out + [k + Equals + env.values[k]];
      j := j + 1;
    }
  }

  // ---------------------------------------------------------------------------
  // Properties of the save
  // ---------------------------------------------------------------------------

  /** The entries a file can hold and give back: keys without `=`, keys and values on one line. */
  predicate WellFormed(e: EnvFile)
  {
    Valid(e)
    && forall k :: k in e.values ==> '=' !in k && IsSingleLine(k) && IsSingleLine(e.values[k])
  }

  /** Whatever is read from a file is well formed. */
  lemma {:induction false} ParsedIsWellFormed(lines: seq<string>)
    requires forall k :: 0 <= k < |lines| ==> IsSingleLine(lines[k])
    ensures WellFormed(ParseLines(lines))
    decreases |lines|
  {
    if |lines| > 0 {
      var init := lines[..|lines| - 1];
      var line := lines[|lines| - 1];
      ParsedIsWellFormed(init);
      if Contains(line, Equals) {
        var kv := SplitAtEquals(line);
        assert IsSingleLine(kv.0) && IsSingleLine(kv.1) by {
          forall c | c in kv.0 ensures c in line { assert c in kv.0 + Equals + kv.1; }
          forall c | c in kv.1 ensures c in line { assert c in kv.0 + Equals + kv.1; }
        }
      }
    }
  }

  /** The saved dictionary is well formed whenever the entered key is on one line. */
  lemma MergedIsWellFormed(existing: Option<string>, groqInput: string)
    requires IsSingleLine(groqInput)
    ensures WellFormed(MergedEnv(existing, groqInput))
  {
    if existing.Some? {
      ParsedIsWellFormed(SplitLines(existing.value));
    }
    GroqKeyNameIsPlain(GroqKeyName);
  }

  /** The key name is upper-case letters and underscores, none of them `=` or a line boundary. */
  lemma GroqKeyNameIsPlain(name: string)
    requires name == GroqKeyName
    ensures '=' !in name && IsSingleLine(name)
  {
    assert forall c :: c in name ==> 'A' <= c <= '_';
    NameRangeIsPlain();
  }

  lemma NameRangeIsPlain()
    ensures forall c: char :: 'A' <= c <= '_' ==> c != '=' && !IsLineBreak(c)
  {
  }

  /** The first `n` entries of `e`, as a dictionary. */
  function Prefix(e: EnvFile, n: nat): (r: EnvFile)
    requires Valid(e) && n <= |e.keys|
    ensures Valid(r)
  {
    EnvFile(e.keys[..n], map k | k in e.keys[..n] :: e.values[k])
  }

  /** Reading the first `n` entry lines rebuilds the first `n` entries. */
  lemma {:induction false} ParseEntryPrefix(e: EnvFile, n: nat)
    requires WellFormed(e) && n <= |e.keys|
    ensures ParseLines(EntryLines(e)[..n]) == Prefix(e, n)
    decreases n
  {
    if n > 0 {
      var k := e.keys[n - 1];
      assert EntryLines(e)[..n] == EntryLines(e)[..n - 1] + [k + Equals + e.values[k]];
      ParseSnoc(EntryLines(e)[..n - 1], k + Equals + e.values[k]);
      ParseEntryPrefix(e, n - 1);
      AddEntryLine(Prefix(e, n - 1), k, e.values[k]);
      PrefixStep(e, n);
    }
  }

  /** A `key=value` line, with no `=` in the key, sets that key to that value. */
  lemma AddEntryLine(e: EnvFile, k: string, v: string)
    requires Valid(e) && '=' !in k
    ensures AddLine(e, k + Equals + v) == Put(e, k, v)
  {
    SplitOfEntry(k, v);
  }

  /** Adding the next entry to a prefix gives the next prefix. */
  lemma PrefixStep(e: EnvFile, n: nat)
    requires Valid(e) && 0 < n <= |e.keys|
    ensures Put(Prefix(e, n - 1), e.keys[n - 1], e.values[e.keys[n - 1]]) == Prefix(e, n)
  {
    var k := e.keys[n - 1];
    assert k !in Prefix(e, n - 1).values by {
      forall j | 0 <= j < n - 1 ensures e.keys[j] != k { }
    }
    assert e.keys[..n] == e.keys[..n - 1] + [k];
  }

  /** A well-formed dictionary survives being written and read back. */
  lemma RoundTrip(e: EnvFile)
    requires WellFormed(e)
    ensures ParseLines(SplitLines(Serialize(e))) == e
  {
    var ls := EntryLines(e);
    forall i | 0 <= i < |ls| ensures ls[i] != "" && IsSingleLine(ls[i]) {
      EntryIsLine(e.keys[i], e.values[e.keys[i]]);
    }
    SplitJoinedLines(ls);
    ParseEntryPrefix(e, |e.keys|);
    FullPrefix(e);
  }

  /** An entry of single-line key and value is one non-empty line. */
  lemma EntryIsLine(k: string, v: string)
    requires IsSingleLine(k) && IsSingleLine(v)
    ensures k + Equals + v != "" && IsSingleLine(k + Equals + v)
  {
    forall c | c in k + Equals + v ensures !IsLineBreak(c) {
      assert c in k || c in Equals || c in v;
    }
  }

  lemma FullPrefix(e: EnvFile)
    requires Valid(e)
    ensures EntryLines(e)[..|e.keys|] == EntryLines(e)
    ensures Prefix(e, |e.keys|) == e
  {
    assert e.keys[..|e.keys|] == e.keys;
  }

  /** What is saved reads back as the dictionary that was saved. */
  lemma SavedFileReadsBack(existing: Option<string>, groqInput: string)
    requires IsSingleLine(groqInput)
    ensures ParseLines(SplitLines(Serialize(MergedEnv(existing, groqInput)))) == MergedEnv(existing, groqInput)
  {
    MergedIsWellFormed(existing, groqInput);
    RoundTrip(MergedEnv(existing, groqInput));
  }

  /** Saving the same key again leaves the file as it is. */
  lemma SaveIsIdempotent(existing: Option<string>, groqInput: string)
    requires IsSingleLine(groqInput)
    ensures MergedEnv(Some(Serialize(MergedEnv(existing, groqInput))), groqInput) == MergedEnv(existing, groqInput)
  {
    SavedFileReadsBack(existing, groqInput);
  }

  /**
   * The saved key: set to the entered key when there is one; with an empty
   * input the file's own entries are kept as they are. Every other key keeps
   * the value and the position the existing file gave it.
   */
  lemma SaveSetsOnlyGroqKey(existing: Option<string>, groqInput: string)
    ensures var base := if existing.Some? then ParseLines(SplitLines(existing.value)) else Empty;
      var m := MergedEnv(existing, groqInput);
      (groqInput != "" ==> GroqKeyName in m.values && m.values[GroqKeyName] == groqInput)
      && (groqInput == "" ==> m == base)
      && (forall k :: k != GroqKeyName ==> (k in m.values <==> k in base.values))
      && (forall k :: k != GroqKeyName && k in base.values ==> m.values[k] == base.values[k])
      && base.keys <= m.keys
  {
  }

  /** A key read again keeps its first position and takes the later value. */
  lemma LaterDuplicateOverwrites(init: seq<string>, k: string, v: string)
    requires '=' !in k && k in ParseLines(init).values
    ensures ParseLines(init + [k + Equals + v]) == EnvFile(ParseLines(init).keys, ParseLines(init).values[k := v])
  {
    ParseEntrySnoc(init, k, v);
  }

  /** A key read for the first time goes after every key read before it. */
  lemma NewKeyGoesLast(init: seq<string>, k: string, v: string)
    requires '=' !in k && k !in ParseLines(init).values
    ensures ParseLines(init + [k + Equals + v]) == EnvFile(ParseLines(init).keys + [k], ParseLines(init).values[k := v])
  {
    ParseEntrySnoc(init, k, v);
  }

  /** A line without `=` is skipped. */
  lemma LineWithoutEqualsIgnored(init: seq<string>, line: string)
    requires !Contains(line, Equals)
    ensures ParseLines(init + [line]) == ParseLines(init)
  {
    ParseSnoc(init, line);
  }

  /** Reading one more `key=value` line sets that key. */
  lemma ParseEntrySnoc(init: seq<string>, k: string, v: string)
    requires '=' !in k
    ensures ParseLines(init + [k + Equals + v]) == Put(ParseLines(init), k, v)
  {
    ParseSnoc(init, k + Equals + v);
    AddEntryLine(ParseLines(init), k, v);
  }

  lemma ParseSnoc(init: seq<string>, line: string)
    ensures ParseLines(init + [line]) == AddLine(ParseLines(init), line)
  {
    assert (init + [line])[..|init|] == init;
  }
}
