/**
 * show_support.py: the parser of an uploaded client configuration string
 * (`convert_to_dict`), the in-place counter update (`collect_info_func`) and
 * the loop that tallies the rows of `upload_statistics_cli_cfg`.
 *
 * Characters are taken to be ASCII: `\w` is [A-Za-z0-9_], `\s` and
 * `str.strip()` are Python's ASCII whitespace (code points 9-13 and 28-32),
 * `isdigit` is 0-9 and `lower` folds A-Z only.
 */
module ShowSupport {
  import opened Basics
  import opened Text

  /** A parsed configuration value: left as text, or coerced to a bool or an int. */
  datatype Value = Str(s: string) | Bool(b: bool) | Int(n: nat)

  predicate IsWordChar(c: char) {
    'a' <= c <= 'z' || 'A' <= c <= 'Z' || '0' <= c <= '9' || c == '_'
  }

  predicate IsSpace(c: char) {
    9 <= c as int <= 13 || 28 <= c as int <= 32
  }

  /** The characters `strip('{} \n')` removes. */
  predicate IsBraceOrBlank(c: char) {
    c == '{' || c == '}' || c == ' ' || c == '\n'
  }

  /** A character `.` matches before the lookahead `(?=,|\n|$)` stops it. */
  predicate IsValueChar(c: char) {
    c != ',' && c != '\n'
  }

  // ---------------------------------------------------------------------
  // str.strip
  // ---------------------------------------------------------------------

  /** How many leading characters `drop` accepts. */
  function LeadLength(s: string, drop: char -> bool): (n: nat)
    ensures n <= |s|
  {
    if s == [] || !drop(s[0]) then 0 else 1 + LeadLength(s[1..], drop)
  }

  /** How many trailing characters `drop` accepts. */
  function TrailLength(s: string, drop: char -> bool): (n: nat)
    ensures n <= |s|
  {
    if s == [] || !drop(s[|s| - 1]) then 0 else 1 + TrailLength(s[..|s| - 1], drop)
  }

  /** The leading run is as long as it can be. */
  lemma {:induction false} LeadLengthSpec(s: string, drop: char -> bool)
    ensures forall i | 0 <= i < LeadLength(s, drop) :: drop(s[i])
    ensures LeadLength(s, drop) < |s| ==> !drop(s[LeadLength(s, drop)])
  {
    if s != [] && drop(s[0]) {
      LeadLengthSpec(s[1..], drop);
      forall i | 1 <= i < LeadLength(s, drop) ensures drop(s[i]) {
        assert s[i] == s[1..][i - 1];
      }
    }
  }

  /** The trailing run is as long as it can be. */
  lemma {:induction false} TrailLengthSpec(s: string, drop: char -> bool)
    ensures forall i | |s| - TrailLength(s, drop) <= i < |s| :: drop(s[i])
    ensures TrailLength(s, drop) < |s| ==> !drop(s[|s| - TrailLength(s, drop) - 1])
  {
    if s != [] && drop(s[|s| - 1]) {
      var init := s[..|s| - 1];
      TrailLengthSpec(init, drop);
      forall i | |s| - TrailLength(s, drop) <= i < |s| - 1 ensures drop(s[i]) {
        assert s[i] == init[i];
      }
      if TrailLength(s, drop) < |s| {
        assert s[|s| - TrailLength(s, drop) - 1] == init[|init| - TrailLength(init, drop) - 1];
      }
    }
  }

  /** `str.strip`: what is left after removing the leading and trailing characters `drop` accepts. */
  function Strip(s: string, drop: char -> bool): string {
    var a := LeadLength(s, drop);
    if a == |s| then [] else s[a..|s| - TrailLength(s[a..], drop)]
  }

  /**
   * The result is the slice that remains after removing the longest prefix
   * and the longest suffix made of dropped characters.
   */
  lemma StripSpec(s: string, drop: char -> bool)
    ensures var r := Strip(s, drop);
            && (r != [] ==> !drop(r[0]) && !drop(r[|r| - 1]))
            && exists i, j :: 0 <= i <= j <= |s| && r == s[i..j] &&
                              (forall k | 0 <= k < i :: drop(s[k])) &&
                              (forall k | j <= k < |s| :: drop(s[k]))
  {
    var a := LeadLength(s, drop);
    LeadLengthSpec(s, drop);
    if a == |s| {
      assert Strip(s, drop) == s[|s|..|s|];
    } else {
      var t := s[a..];
      var b := TrailLength(t, drop);
      TrailLengthSpec(t, drop);
      assert t[0] == s[a];
      assert b < |t|;
      forall k | |s| - b <= k < |s| ensures drop(s[k]) {
        assert s[k] == t[k - a];
      }
      assert s[|s| - b - 1] == t[|t| - b - 1];
      assert Strip(s, drop) == s[a..|s| - b];
    }
  }

  /** Stripping twice removes nothing more. */
  lemma StripIdempotent(s: string, drop: char -> bool)
    ensures Strip(Strip(s, drop), drop) == Strip(s, drop)
  {
    var r := Strip(s, drop);
    StripSpec(s, drop);
    if r != [] {
      assert r[0..] == r;
      assert r[0..|r| - 0] == r;
    }
  }

  /** A character absent from the input is absent from the stripped result. */
  lemma StripKeepsOut(s: string, drop: char -> bool, c: char)
    requires c !in s
    ensures c !in Strip(s, drop)
  {
    StripSpec(s, drop);
    var i, j :| 0 <= i <= j <= |s| && Strip(s, drop) == s[i..j];
  }

  // ---------------------------------------------------------------------
  // re.findall(r'(\w+\.\w+|\w+)\s*:\s*(.*?)(?=,|\n|$)', ...)
  // ---------------------------------------------------------------------

  /** The length of the run of characters `p` accepts that starts at `i`. */
  function RunLength(s: string, i: nat, p: char -> bool): (n: nat)
    requires i <= |s|
    decreases |s| - i
    ensures i + n <= |s|
  {
    if i == |s| || !p(s[i]) then 0 else 1 + RunLength(s, i + 1, p)
  }

  /** The run is as long as it can be. */
  lemma {:induction false} RunLengthSpec(s: string, i: nat, p: char -> bool)
    requires i <= |s|
    decreases |s| - i
    ensures forall k | i <= k < i + RunLength(s, i, p) :: p(s[k])
    ensures i + RunLength(s, i, p) < |s| ==> !p(s[i + RunLength(s, i, p)])
  {
    if i < |s| && p(s[i]) {
      RunLengthSpec(s, i + 1, p);
    }
  }

  /** `\s*:` matches at `i`. */
  predicate ColonAt(s: string, i: nat)
    requires i <= |s|
  {
    var c := i + RunLength(s, i, IsSpace);
    c < |s| && s[c] == ':'
  }

  /**
   * Where the key group ends when the pattern matches at `p`: the dotted
   * alternative `\w+\.\w+` is tried first, then the plain `\w+`; either
   * must be followed by `\s*:`.
   */
  function KeyEnd(s: string, p: nat): (r: Option<nat>)
    requires p <= |s|
    ensures r.Some? ==> p < r.value <= |s| && ColonAt(s, r.value)
  {
    var w := RunLength(s, p, IsWordChar);
    if w == 0 then None
    else
      var dot := p + w;
      if dot < |s| && s[dot] == '.' && RunLength(s, dot + 1, IsWordChar) > 0
         && ColonAt(s, dot + 1 + RunLength(s, dot + 1, IsWordChar)) then
        Some(dot + 1 + RunLength(s, dot + 1, IsWordChar))
      else if ColonAt(s, dot) then Some(dot)
      else None
  }

  /** Where the value of a match whose key ends at `e` starts: past the colon and the whitespace around it. */
  function ValueStart(s: string, e: nat): (vs: nat)
    requires e <= |s| && ColonAt(s, e)
    ensures e < vs <= |s|
  {
    var colon := e + RunLength(s, e, IsSpace);
    colon + 1 + RunLength(s, colon + 1, IsSpace)
  }

  /**
   * The (key, value) groups of every match from `p` on. A failed attempt
   * moves one character on; after a match the search resumes where the
   * value stopped, before the first comma or newline.
   */
  function FindAllFrom(s: string, p: nat): seq<(string, string)>
    requires p <= |s|
    decreases |s| - p
  {
    if p == |s| then []
    else
      match KeyEnd(s, p)
      case None => FindAllFrom(s, p + 1)
      case Some(e) =>
        var vs := ValueStart(s, e);
        var ve := vs + RunLength(s, vs, IsValueChar);
        [(s[p..e], s[vs..ve])] + FindAllFrom(s, ve)
  }

  function FindAll(s: string): seq<(string, string)> {
    FindAllFrom(s, 0)
  }

  /** A key the pattern captures: word characters, with at most the one dot between two words. */
  predicate IsKeyName(k: string) {
    |k| >= 1 && IsWordChar(k[0]) && IsWordChar(k[|k| - 1]) &&
    forall i | 0 <= i < |k| :: IsWordChar(k[i]) || k[i] == '.'
  }

  /** The key group of a match is a name. */
  lemma KeyEndIsName(s: string, p: nat)
    requires p <= |s| && KeyEnd(s, p).Some?
    ensures IsKeyName(s[p..KeyEnd(s, p).value])
  {
    var e := KeyEnd(s, p).value;
    var w := RunLength(s, p, IsWordChar);
    RunLengthSpec(s, p, IsWordChar);
    var key := s[p..e];
    if e != p + w {
      RunLengthSpec(s, p + w + 1, IsWordChar);
    }
    forall i | 0 <= i < |key| ensures IsWordChar(key[i]) || key[i] == '.' {
      assert key[i] == s[p + i];
    }
    assert key[0] == s[p];
    assert key[|key| - 1] == s[e - 1];
  }

  /** The value group of a match holds no comma and no newline. */
  lemma ValueRunShape(s: string, vs: nat)
    requires vs <= |s|
    ensures var value := s[vs..vs + RunLength(s, vs, IsValueChar)];
            ',' !in value && '\n' !in value
  {
    RunLengthSpec(s, vs, IsValueChar);
    var value := s[vs..vs + RunLength(s, vs, IsValueChar)];
    forall i | 0 <= i < |value| ensures IsValueChar(value[i]) {
      assert value[i] == s[vs + i];
    }
  }

  /** Every captured key is a name and every captured value stops short of a comma or newline. */
  lemma {:induction false} FindAllFromShape(s: string, p: nat)
    requires p <= |s|
    decreases |s| - p
    ensures forall i | 0 <= i < |FindAllFrom(s, p)| ::
              IsKeyName(FindAllFrom(s, p)[i].0) &&
              ',' !in FindAllFrom(s, p)[i].1 && '\n' !in FindAllFrom(s, p)[i].1
  {
    if p < |s| {
      match KeyEnd(s, p)
      case None =>
        FindAllFromShape(s, p + 1);
      case Some(e) =>
        var vs := ValueStart(s, e);
        var ve := vs + RunLength(s, vs, IsValueChar);
        FindAllFromShape(s, ve);
        KeyEndIsName(s, p);
        ValueRunShape(s, vs);
    }
  }

  // ---------------------------------------------------------------------
  // convert_to_dict
  // ---------------------------------------------------------------------

  /** `{key.strip(): value.strip() for key, value in matches}`: a later key overwrites an earlier one. */
  function RawDict(matches: seq<(string, string)>): map<string, string> {
    if matches == [] then map[]
    else
      var last := matches[|matches| - 1];
      RawDict(matches[..|matches| - 1])[Strip(last.0, IsSpace) := Strip(last.1, IsSpace)]
  }

  /** A key is in the dict exactly when some match has it. */
  lemma {:induction false} RawDictKeys(matches: seq<(string, string)>, k: string)
    ensures k in RawDict(matches) <==> exists i | 0 <= i < |matches| :: Strip(matches[i].0, IsSpace) == k
  {
    if matches != [] {
      var init := matches[..|matches| - 1];
      RawDictKeys(init, k);
      if exists i | 0 <= i < |matches| :: Strip(matches[i].0, IsSpace) == k {
        var i :| 0 <= i < |matches| && Strip(matches[i].0, IsSpace) == k;
        if i < |init| {
          assert init[i] == matches[i];
        }
      }
      if exists i | 0 <= i < |init| :: Strip(init[i].0, IsSpace) == k {
        var i :| 0 <= i < |init| && Strip(init[i].0, IsSpace) == k;
        assert matches[i] == init[i];
      }
    }
  }

  /** The value kept for a key is the one of its last match. */
  lemma {:induction false} RawDictLastWins(matches: seq<(string, string)>, i: nat)
    requires i < |matches|
    requires forall j | i < j < |matches| :: Strip(matches[j].0, IsSpace) != Strip(matches[i].0, IsSpace)
    ensures Strip(matches[i].0, IsSpace) in RawDict(matches)
    ensures RawDict(matches)[Strip(matches[i].0, IsSpace)] == Strip(matches[i].1, IsSpace)
  {
    var init := matches[..|matches| - 1];
    if i < |matches| - 1 {
      assert init[i] == matches[i];
      forall j | i < j < |init| ensures Strip(init[j].0, IsSpace) != Strip(init[i].0, IsSpace) {
        assert init[j] == matches[j];
      }
      RawDictLastWins(init, i);
    }
  }

  /** A key name has no surrounding whitespace, so `key.strip()` leaves it as it is. */
  lemma StripOfName(k: string)
    requires IsKeyName(k)
    ensures Strip(k, IsSpace) == k
  {
    assert LeadLength(k, IsSpace) == 0;
    assert k[0..] == k;
    assert TrailLength(k, IsSpace) == 0;
  }

  /** Stripped matches of that shape give a dict of names to values without commas or newlines. */
  lemma {:induction false} RawDictShape(matches: seq<(string, string)>)
    requires forall i | 0 <= i < |matches| ::
               IsKeyName(matches[i].0) && ',' !in matches[i].1 && '\n' !in matches[i].1
    ensures forall k | k in RawDict(matches) ::
              IsKeyName(k) && ',' !in RawDict(matches)[k] && '\n' !in RawDict(matches)[k]
  {
    if matches != [] {
      var init := matches[..|matches| - 1];
      var last := matches[|matches| - 1];
      assert forall i | 0 <= i < |init| :: init[i] == matches[i];
      RawDictShape(init);
      StripOfName(last.0);
      StripKeepsOut(last.1, IsSpace, ',');
      StripKeepsOut(last.1, IsSpace, '\n');
    }
  }

  /** ASCII `lower` of one character. */
  function LowerChar(c: char): (l: char)
    ensures 'A' <= c <= 'Z' ==> 'a' <= l <= 'z' && l as int == c as int + 32
    ensures !('A' <= c <= 'Z') ==> l == c
  {
    if 'A' <= c <= 'Z' then (c as int + 32) as char else c
  }

  function Lower(s: string): (r: string)
    ensures |r| == |s|
  {
    if s == [] then [] else [LowerChar(s[0])] + Lower(s[1..])
  }

  /** Digits have no case, so a digit string never lower-cases to "true" or "false". */
  lemma {:induction false} DigitsAreNotWords(s: string)
    ensures AllDigits(s) ==> Lower(s) == s
    ensures AllDigits(s) ==> Lower(s) != "true" && Lower(s) != "false"
  {
    if s != [] && AllDigits(s) {
      DigitsAreNotWords(s[1..]);
      assert IsDigit(s[0]);
    }
  }

  /**
   * The coercion of `convert_to_dict`: "true" and "false" in any case become
   * bools, a non-empty string of digits becomes its int, anything else stays text.
   */
  function Coerce(v: string): (r: Value)
    ensures r == Bool(true) <==> Lower(v) == "true"
    ensures r == Bool(false) <==> Lower(v) == "false"
    ensures r.Int? <==> |v| >= 1 && AllDigits(v)
    ensures r.Int? ==> r.n == DigitsValue(v)
    ensures r.Str? ==> r.s == v
  {
    DigitsAreNotWords(v);
    if Lower(v) == "true" then Bool(true)
    else if Lower(v) == "false" then Bool(false)
    else
      match ParseDecimal(v)
      case Some(n) => Int(n)
      case None => Str(v)
  }

  /** The dict `convert_to_dict` returns, as a function of its input. */
  function ToDict(s: string): map<string, Value> {
    var raw := RawDict(FindAll(Strip(s, IsBraceOrBlank)));
    map k | k in raw :: Coerce(raw[k])
  }

  /**
   * `convert_to_dict`: strip the braces, collect the matches into a dict,
   * then rewrite each value in place.
   */
  method ConvertToDict(s: string) returns (d: map<string, Value>)
    ensures d == ToDict(s)
  {
    var cleaned := Strip(s, IsBraceOrBlank);
    var raw := RawDict(FindAll(cleaned));
    d := CoerceAll(raw);
  }

  /** The coercion loop of `convert_to_dict`: every value is coerced, no key is added or lost. */
  method CoerceAll(raw: map<string, string>) returns (d: map<string, Value>)
    ensures d == map k | k in raw :: Coerce(raw[k])
  {
    d := map k | k in raw :: Str(raw[k]);
    var todo := raw.Keys;
    assert d == PartlyCoerced(raw, todo);
    while todo != {}
      invariant todo <= raw.Keys
      invariant d == PartlyCoerced(raw, todo)
      decreases |todo|
    {
      var key :| key in todo;
      var value := CoerceValue(raw[key]);
      CoerceStep(raw, todo, key, value);
      d := d[key := value];
      todo := todo - {key};
    }
    assert PartlyCoerced(raw, {}) == map k | k in raw :: Coerce(raw[k]);
  }

  /** One pass of the coercion `if` chain of `convert_to_dict`, on one value. */
  method CoerceValue(v: string) returns (r: Value)
    ensures r == Coerce(v)
  {
    r := Str(v);
    if Lower(v) == "true" {
      r := Bool(true);
    } else if Lower(v) == "false" {
      r := Bool(false);
    } else if |v| >= 1 && AllDigits(v) {
      r := Int(DigitsValue(v));
    }
  }

  /** The dict half-way through the coercion loop: the keys in `todo` still hold their text. */
  ghost function PartlyCoerced(raw: map<string, string>, todo: set<string>): map<string, Value> {
    map k | k in raw :: if k in todo then Str(raw[k]) else Coerce(raw[k])
  }

  /** Coercing the value of one more key moves that key out of `todo`. */
  lemma CoerceStep(raw: map<string, string>, todo: set<string>, key: string, value: Value)
    requires key in todo && todo <= raw.Keys && value == Coerce(raw[key])
    ensures PartlyCoerced(raw, todo)[key := value] == PartlyCoerced(raw, todo - {key})
  {
  }

  /** Every key of a parsed configuration is a name, and a text value holds no comma or newline. */
  lemma ToDictShape(s: string, k: string)
    requires k in ToDict(s)
    ensures IsKeyName(k)
    ensures ToDict(s)[k].Str? ==> ',' !in ToDict(s)[k].s && '\n' !in ToDict(s)[k].s
  {
    var matches := FindAll(Strip(s, IsBraceOrBlank));
    FindAllFromShape(Strip(s, IsBraceOrBlank), 0);
    RawDictShape(matches);
  }

  // ---------------------------------------------------------------------
  // collect_info_func
  // ---------------------------------------------------------------------

  /** `value == True` in Python, which also holds for the int 1. */
  predicate EqualsTrue(v: Value) {
    v == Bool(true) || v == Int(1)
  }

  /** A configuration value counts as supported for "true" in any case and for any spelling of 1. */
  lemma CoercedTrue(v: string)
    ensures EqualsTrue(Coerce(v)) <==> Lower(v) == "true" || (|v| >= 1 && AllDigits(v) && DigitsValue(v) == 1)
  {
  }

  function Tick(v: Value): (t: nat)
    ensures t == 1 <==> EqualsTrue(v)
    ensures t <= 1
  {
    if EqualsTrue(v) then 1 else 0
  }

  predicate Distinct(keys: seq<string>) {
    forall i, j | 0 <= i < j < |keys| :: keys[i] != keys[j]
  }

  /** How many leading keys the configuration has; `config[key]` raises KeyError at the next one. */
  function Reach(keys: seq<string>, config: map<string, Value>): (n: nat)
    ensures n <= |keys|
    ensures forall i | 0 <= i < n :: keys[i] in config
    ensures n < |keys| ==> keys[n] !in config
  {
    if keys == [] || keys[0] !in config then 0 else 1 + Reach(keys[1..], config)
  }

  /** One of the counter dicts: its keys in insertion order and a count per key. */
  class Counter {
    const keys: seq<string>
    var counts: map<string, int>

    ghost predicate Valid()
      reads this
    {
      Distinct(keys) && forall k :: k in counts <==> k in keys
    }

    /** `{key: 0 for key in ...}` */
    constructor(keys: seq<string>)
      requires Distinct(keys)
      ensures Valid()
      ensures this.keys == keys
      ensures counts == map k | k in keys :: 0
    {
      this.keys := keys;
      counts := map k | k in keys :: 0;
    }

    /**
     * `collect_info_func`: visits the keys in order and adds one to each
     * whose configuration value equals True. A key missing from the
     * configuration raises KeyError (`ok` false) after the counters of the
     * keys before it were updated.
     */
    method Collect(config: map<string, Value>) returns (ok: bool)
      requires Valid()
      modifies this
      ensures Valid()
      ensures ok <==> Reach(keys, config) == |keys|
      ensures counts.Keys == old(counts).Keys
      ensures forall j | 0 <= j < |keys| ::
                counts[keys[j]] == old(counts)[keys[j]] +
                  if j < Reach(keys, config) then Tick(config[keys[j]]) else 0
    {
      var i := 0;
      while i < |keys|
        invariant 0 <= i <= |keys|
        invariant forall j | 0 <= j < i :: keys[j] in config
        invariant Valid()
        invariant counts.Keys == old(counts).Keys
        invariant forall j | 0 <= j < |keys| ::
                    counts[keys[j]] == old(counts)[keys[j]] + if j < i then Tick(config[keys[j]]) else 0
      {
        var key := keys[i];
        if key !in config {
          return false;
        }
        if config[key] == Bool(true) || config[key] == Int(1) {
          counts := counts[key := counts[key] + 1];
        }
        i := i + 1;
      }
      return true;
    }
  }

  // ---------------------------------------------------------------------
  // The row loop
  // ---------------------------------------------------------------------

  /** One row of `SELECT configuration_info, cli_type FROM upload_statistics_cli_cfg`. */
  datatype CfgRow = CfgRow(configuration: string, cliType: string)

  /** The counted capabilities, in the order of the `collect_info` literal. */
  const SupportKeys: seq<string> := [
    "supports_ETC1", "supports_ETC2", "supports_PVRTC", "supports_ATITC",
    "supports_ASTC", "supports_S3TC", "supports_BGRA8888", "supports_NPOT",
    "supports_vertex_array_object", "supports_OES_depth24",
    "supports_OES_packed_depth_stencil", "supports_discard_framebuffer",
    "supports_OES_map_buffer"]

  /** A row enters a tally: it carries a configuration and, for a per-type tally, has that type. */
  predicate Counted(row: CfgRow, cli: Option<string>) {
    row.configuration != "" && (cli.None? || row.cliType == cli.value)
  }

  /** A row the loop gets past: no configuration, or one holding every counted key. */
  predicate RowOk(row: CfgRow, keys: seq<string>) {
    row.configuration == "" || Reach(keys, ToDict(row.configuration)) == |keys|
  }

  /** What a configuration adds to the counter of `key` when it holds the key. */
  function Hit(config: map<string, Value>, key: string): nat {
    if key in config then Tick(config[key]) else 0
  }

  /** What one row adds to a counter. */
  function RowHits(row: CfgRow, cli: Option<string>, key: string): nat {
    if Counted(row, cli) then Hit(ToDict(row.configuration), key) else 0
  }

  predicate Complete(rows: seq<CfgRow>, keys: seq<string>) {
    rows == [] || (RowOk(rows[0], keys) && Complete(rows[1..], keys))
  }

  /** The rows that enter a tally. */
  function Uploads(rows: seq<CfgRow>, cli: Option<string>): (n: nat)
    ensures n <= |rows|
  {
    if rows == [] then 0 else (if Counted(rows[0], cli) then 1 else 0) + Uploads(rows[1..], cli)
  }

  /** The rows whose configuration supports `key`, among those that enter a tally. */
  function Hits(rows: seq<CfgRow>, cli: Option<string>, key: string): nat {
    if rows == [] then 0 else RowHits(rows[0], cli, key) + Hits(rows[1..], cli, key)
  }

  /** A counter never exceeds the number of configurations it looked at. */
  lemma {:induction false} HitsWithinUploads(rows: seq<CfgRow>, cli: Option<string>, key: string)
    ensures Hits(rows, cli, key) <= Uploads(rows, cli)
  {
    if rows != [] {
      HitsWithinUploads(rows[1..], cli, key);
    }
  }

  /** The "999" and "h5" tallies split part of the overall one. */
  lemma {:induction false} PerTypeWithinTotal(rows: seq<CfgRow>, key: string)
    ensures Uploads(rows, Some("999")) + Uploads(rows, Some("h5")) <= Uploads(rows, None)
    ensures Hits(rows, Some("999"), key) + Hits(rows, Some("h5"), key) <= Hits(rows, None, key)
  {
    if rows != [] {
      PerTypeWithinTotal(rows[1..], key);
    }
  }

  /** A row of another client type counts only in the overall tally. */
  lemma OtherTypeCountsOverallOnly(row: CfgRow, key: string)
    requires row.configuration != "" && row.cliType != "999" && row.cliType != "h5"
    ensures Uploads([row], None) == 1
    ensures Uploads([row], Some("999")) == 0 && Uploads([row], Some("h5")) == 0
    ensures Hits([row], Some("999"), key) == 0 && Hits([row], Some("h5"), key) == 0
  {
    assert [row][1..] == [];
  }

  /** The state of the tally loop: the device counts and the three counter dicts. */
  class Survey {
    const keys: seq<string>
    const all: Counter
    const only999: Counter
    const onlyH5: Counter
    var totalDevices: int
    var realUploads: int
    var realUploads999: int
    var realUploadsH5: int

    ghost predicate Valid()
      reads this, all, only999, onlyH5
    {
      && all != only999 && all != onlyH5 && only999 != onlyH5
      && all.keys == keys && only999.keys == keys && onlyH5.keys == keys
      && all.Valid() && only999.Valid() && onlyH5.Valid()
    }

    /** Every count at zero, over the keys of `collect_info`. */
    constructor()
      ensures Valid() && fresh(all) && fresh(only999) && fresh(onlyH5)
      ensures keys == SupportKeys
      ensures totalDevices == 0 && realUploads == 0 && realUploads999 == 0 && realUploadsH5 == 0
      ensures all.counts == only999.counts == onlyH5.counts == map k | k in SupportKeys :: 0
    {
      keys := SupportKeys;
      all := new Counter(SupportKeys);
      only999 := new Counter(SupportKeys);
      onlyH5 := new Counter(SupportKeys);
      totalDevices := 0;
      realUploads := 0;
      realUploads999 := 0;
      realUploadsH5 := 0;
    }

    /**
     * The part of the loop body for a row with a configuration, once it is
     * parsed: the overall counters, then those of the row's client type.
     * `ok` is false when `collect_info_func` raises.
     */
    method CountConfig(config: map<string, Value>, cliType: string) returns (ok: bool)
      requires Valid()
      modifies this, all, only999, onlyH5
      ensures Valid()
      ensures ok <==> Reach(keys, config) == |keys|
      ensures ok ==>
                && totalDevices == old(totalDevices)
                && realUploads == old(realUploads) + 1
                && realUploads999 == old(realUploads999) + (if cliType == "999" then 1 else 0)
                && realUploadsH5 == old(realUploadsH5) + (if cliType == "h5" then 1 else 0)
      ensures ok ==> forall j | 0 <= j < |keys| ::
                && all.counts[keys[j]] == old(all.counts[keys[j]]) + Hit(config, keys[j])
                && only999.counts[keys[j]] == old(only999.counts[keys[j]]) + (if cliType == "999" then Hit(config, keys[j]) else 0)
                && onlyH5.counts[keys[j]] == old(onlyH5.counts[keys[j]]) + (if cliType == "h5" then Hit(config, keys[j]) else 0)
    {
      realUploads := realUploads + 1;
      ok := all.Collect(config);
      if !ok {
        return;
      }
      if cliType == "999" {
        realUploads999 := realUploads999 + 1;
        ok := only999.Collect(config);
      } else if cliType == "h5" {
        realUploadsH5 := realUploadsH5 + 1;
        ok := onlyH5.Collect(config);
      }
    }

    /**
     * One pass of the loop body: count the device; parse and count a row
     * that carries a configuration. `ok` is false when `collect_info_func` raises.
     */
    method AddRow(row: CfgRow) returns (ok: bool)
      requires Valid()
      modifies this, all, only999, onlyH5
      ensures Valid()
      ensures ok <==> RowOk(row, keys)
      ensures ok ==>
                && totalDevices == old(totalDevices) + 1
                && realUploads == old(realUploads) + Uploads([row], None)
                && realUploads999 == old(realUploads999) + Uploads([row], Some("999"))
                && realUploadsH5 == old(realUploadsH5) + Uploads([row], Some("h5"))
      ensures ok ==> forall j | 0 <= j < |keys| ::
                && all.counts[keys[j]] == old(all.counts[keys[j]]) + RowHits(row, None, keys[j])
                && only999.counts[keys[j]] == old(only999.counts[keys[j]]) + RowHits(row, Some("999"), keys[j])
                && onlyH5.counts[keys[j]] == old(onlyH5.counts[keys[j]]) + RowHits(row, Some("h5"), keys[j])
    {
      assert [row][1..] == [];
      totalDevices := totalDevices + 1;
      ok := true;
      if row.configuration != "" {
        var config := ConvertToDict(row.configuration);
        ok := CountConfig(config, row.cliType);
      }
    }

    /**
     * The `while True` loop over the fetched rows. It stops with `ok` false
     * at the first row whose configuration lacks a counted key (the script
     * dies there with KeyError); otherwise every count is the tally of the rows.
     */
    method Run(rows: seq<CfgRow>) returns (ok: bool)
      requires Valid()
      modifies this, all, only999, onlyH5
      ensures Valid()
      ensures ok <==> Complete(rows, keys)
      ensures ok ==>
                && totalDevices == old(totalDevices) + |rows|
                && realUploads == old(realUploads) + Uploads(rows, None)
                && realUploads999 == old(realUploads999) + Uploads(rows, Some("999"))
                && realUploadsH5 == old(realUploadsH5) + Uploads(rows, Some("h5"))
      ensures ok ==> forall j | 0 <= j < |keys| ::
                && all.counts[keys[j]] == old(all.counts[keys[j]]) + Hits(rows, None, keys[j])
                && only999.counts[keys[j]] == old(only999.counts[keys[j]]) + Hits(rows, Some("999"), keys[j])
                && onlyH5.counts[keys[j]] == old(onlyH5.counts[keys[j]]) + Hits(rows, Some("h5"), keys[j])
    {
      var i := 0;
      while i < |rows|
        invariant 0 <= i <= |rows|
        invariant Valid()
        invariant Complete(rows, keys) == Complete(rows[i..], keys)
        invariant totalDevices + |rows[i..]| == old(totalDevices) + |rows|
        invariant realUploads + Uploads(rows[i..], None) == old(realUploads) + Uploads(rows, None)
        invariant realUploads999 + Uploads(rows[i..], Some("999")) == old(realUploads999) + Uploads(rows, Some("999"))
        invariant realUploadsH5 + Uploads(rows[i..], Some("h5")) == old(realUploadsH5) + Uploads(rows, Some("h5"))
        invariant forall j | 0 <= j < |keys| ::
                    && all.counts[keys[j]] + Hits(rows[i..], None, keys[j]) == old(all.counts[keys[j]]) + Hits(rows, None, keys[j])
                    && only999.counts[keys[j]] + Hits(rows[i..], Some("999"), keys[j]) == old(only999.counts[keys[j]]) + Hits(rows, Some("999"), keys[j])
                    && onlyH5.counts[keys[j]] + Hits(rows[i..], Some("h5"), keys[j]) == old(onlyH5.counts[keys[j]]) + Hits(rows, Some("h5"), keys[j])
      {
        RowStep(rows, i, keys);
        ok := AddRow(rows[i]);
        if !ok {
          return;
        }
        i := i + 1;
      }
      return true;
    }
  }

  /** Splitting the next row off the rows still to visit. */
  lemma RowStep(rows: seq<CfgRow>, i: nat, keys: seq<string>)
    requires i < |rows|
    ensures Complete(rows[i..], keys) == (RowOk(rows[i], keys) && Complete(rows[i + 1..], keys))
    ensures forall cli :: Uploads(rows[i..], cli) == Uploads([rows[i]], cli) + Uploads(rows[i + 1..], cli)
    ensures forall cli, k :: Hits(rows[i..], cli, k) == RowHits(rows[i], cli, k) + Hits(rows[i + 1..], cli, k)
  {
    assert rows[i..][1..] == rows[i + 1..];
    assert [rows[i]][1..] == [];
  }
}
