/**
 * Option resolution of the notification queue connection: the DSN/option merge of
 * `buildConfiguration`, the recursive merge the constructor applies over the defaults,
 * the PHP coercions those two rely on, and the typed view of the result that the
 * store reads.
 */
module Config {
  import opened Wrappers

  /** A PHP value as it can occur in an option array: scalars, lists and string-keyed arrays. */
  datatype Value =
    | Null
    | Bool(b: bool)
    | Int(i: int)
    | Str(s: string)
    | List(items: seq<Value>)
    | Dict(entries: map<string, Value>)

  /** An option array keyed by option name. */
  type Options = map<string, Value>

  /** The defaults every configuration is completed with; their keys are the only accepted options. */
  const DefaultOptions: Options := map[
    "table_name" := Str("notification_sms"),
    "provider_name" := Null,
    "template_name" := Null,
    "redeliver_timeout" := Int(3600),
    "receive_timeout" := Int(60000),
    "auto_setup" := Bool(true),
    "payload" := Dict(map["models" := List([])])
  ]

  /** The DSN after `parse_url` and `parse_str`: its host and its query parameters. */
  datatype Dsn = Dsn(host: Option<string>, query: Options)

  datatype ConfigError =
    | InvalidDsn
    | UnknownOptions(keys: set<string>)
    | UnknownDsnOptions(keys: set<string>)

  // ---------------------------------------------------------------------------
  // PHP coercions
  // ---------------------------------------------------------------------------

  /** The ASCII lower-casing `filter_var` applies before comparing: only `A`-`Z` change. */
  function LowerAscii(s: string): (r: string)
    ensures |r| == |s|
    ensures forall i :: 0 <= i < |s| ==> r[i] == (if 'A' <= s[i] <= 'Z' then (s[i] as int + 32) as char else s[i])
  {
    if s == [] then []
    else
      var c := s[0];
      [if 'A' <= c <= 'Z' then (c as int + 32) as char else c] + LowerAscii(s[1..])
  }

  /** `filter_var($v, FILTER_VALIDATE_BOOLEAN)`: only the "true" spellings give true. */
  predicate FilterBool(v: Value) {
    match v
    case Bool(b) => b
    case Int(i) => i == 1
    case Str(s) => LowerAscii(s) in {"1", "true", "on", "yes"}
    case _ => false
  }

  /** A value `filter_var` accepts as true is also truthy. */
  lemma FilterBoolTruthy(v: Value)
    ensures FilterBool(v) ==> Truthy(v)
  {
  }

  /**
   * The converse fails: the string "false" is truthy, yet `filter_var` reads it as
   * false. So a raw option the constructor reads by truthiness can disagree with the
   * boolean `buildConfiguration` makes of it.
   */
  lemma TruthyNotFilterBool()
    ensures Truthy(Str("false")) && !FilterBool(Str("false"))
  {
    assert LowerAscii("false") == "false";
  }

  /** `filter_var` ignores the case of a spelling: lower-casing a string first changes nothing. */
  lemma FilterBoolIgnoresCase(s: string)
    ensures FilterBool(Str(LowerAscii(s))) == FilterBool(Str(s))
  {
    var l := LowerAscii(s);
    assert LowerAscii(l) == l by {
      forall i | 0 <= i < |l|
        ensures LowerAscii(l)[i] == l[i]
      {
      }
    }
  }

  /** PHP truthiness, as used by `if ($this->autoSetup)`: exactly PHP's seven falsy values are false. */
  predicate Truthy(v: Value)
    ensures !Truthy(v) <==>
      v == Null || v == Bool(false) || v == Int(0) || v == Str("") || v == Str("0") || v == List([]) || v == Dict(map[])
  {
    match v
    case Null => false
    case Bool(b) => b
    case Int(i) => i != 0
    case Str(s) => s != "" && s != "0"
    case List(items) => |items| > 0
    case Dict(entries) => |entries| > 0
  }

  predicate IsDigit(c: char) {
    '0' <= c <= '9'
  }

  function DigitValue(c: char): nat
    requires IsDigit(c)
  {
    c as int - '0' as int
  }

  function Pow10(n: nat): (p: nat)
    ensures p >= 1
  {
    if n == 0 then 1 else 10 * Pow10(n - 1)
  }

  /** Reference reading of a string of decimal digits: each digit weighted by its place. */
  function DigitsValue(d: string): nat
    requires forall k :: 0 <= k < |d| ==> IsDigit(d[k])
  {
    if d == [] then 0 else DigitValue(d[0]) * Pow10(|d| - 1) + DigitsValue(d[1..])
  }

  /**
   * The longest run of decimal digits at the head of `s`, read onto the digits `acc`
   * already read: its value and its length.
   */
  function DigitPrefix(s: string, acc: nat): (r: (nat, nat))
    ensures r.1 <= |s|
    ensures forall k :: 0 <= k < r.1 ==> IsDigit(s[k])
    ensures r.1 < |s| ==> !IsDigit(s[r.1])
    ensures r.0 == acc * Pow10(r.1) + DigitsValue(s[..r.1])
  {
    if s == [] || !IsDigit(s[0]) then (acc, 0)
    else
      var rest := DigitPrefix(s[1..], acc * 10 + DigitValue(s[0]));
      DigitPrefixStep(s, acc, rest.0, rest.1);
      (rest.0, rest.1 + 1)
  }

  /** The value of a digit run read from its second digit on, with the first digit already consumed. */
  lemma DigitPrefixStep(s: string, acc: nat, v: nat, n: nat)
    requires n < |s| && IsDigit(s[0])
    requires forall k :: 0 <= k < n ==> IsDigit(s[1..][k])
    requires v == (acc * 10 + DigitValue(s[0])) * Pow10(n) + DigitsValue(s[1..][..n])
    ensures forall k :: 0 <= k < n + 1 ==> IsDigit(s[k])
    ensures v == acc * Pow10(n + 1) + DigitsValue(s[..n + 1])
  {
    assert forall k :: 0 < k < n + 1 ==> s[k] == s[1..][k - 1];
    assert s[..n + 1][1..] == s[1..][..n];
    ShiftDigit(acc, DigitValue(s[0]), Pow10(n));
  }

  /** Reading one more digit `b` after the digits `a` shifts `a` one place to the left. */
  lemma ShiftDigit(a: nat, b: nat, p: nat)
    ensures (a * 10 + b) * p == a * (10 * p) + b * p
  {
  }

  /** The integer PHP reads from a numeric-leading string (`"12abc"` gives 12, `"abc"` gives 0). */
  function LeadingInt(s: string): int {
    if |s| > 0 && s[0] == '-' then -(DigitPrefix(s[1..], 0).0 as int)
    else if |s| > 0 && s[0] == '+' then DigitPrefix(s[1..], 0).0
    else DigitPrefix(s, 0).0
  }

  /** A run of digits `d`, signed or not, followed by text that does not go on with a digit, reads as the decimal value of `d`. */
  lemma LeadingIntReadsDigitRun(d: string, t: string)
    requires |d| > 0 && forall k :: 0 <= k < |d| ==> IsDigit(d[k])
    requires t == [] || !IsDigit(t[0])
    ensures LeadingInt(d + t) == DigitsValue(d)
    ensures LeadingInt(['+'] + d + t) == DigitsValue(d)
    ensures LeadingInt(['-'] + d + t) == -(DigitsValue(d) as int)
  {
    var u := d + t;
    DigitRunOf(d, t);
    assert u[0] == d[0];
    assert ['+'] + d + t == ['+'] + u;
    SignedLeadingInt('+', u);
    assert ['-'] + d + t == ['-'] + u;
    SignedLeadingInt('-', u);
  }

  /** A sign in front reads the digit run after it, negated after a minus. */
  lemma SignedLeadingInt(c: char, u: string)
    requires c == '+' || c == '-'
    ensures LeadingInt([c] + u) == if c == '-' then -(DigitPrefix(u, 0).0 as int) else DigitPrefix(u, 0).0
  {
    assert ([c] + u)[1..] == u;
  }

  /** The digit run at the head of `d + t` is exactly `d`. */
  lemma DigitRunOf(d: string, t: string)
    requires forall k :: 0 <= k < |d| ==> IsDigit(d[k])
    requires t == [] || !IsDigit(t[0])
    ensures DigitPrefix(d + t, 0) == (DigitsValue(d), |d|)
  {
    var r := DigitPrefix(d + t, 0);
    assert forall k :: 0 <= k < |d| ==> (d + t)[k] == d[k];
    assert |d| < |d + t| ==> (d + t)[|d|] == t[0];
    assert r.1 == |d|;
    assert (d + t)[..|d|] == d;
  }

  /**
   * The integer `sprintf('%d', $v)` formats. It is non-zero only for a truthy value,
   * and for anything but a string exactly then; null, booleans and arrays give 0 or 1.
   */
  function AsInt(v: Value): (r: int)
    ensures r != 0 ==> Truthy(v)
    ensures !v.Str? ==> (r != 0 <==> Truthy(v))
    ensures !v.Int? && !v.Str? ==> 0 <= r <= 1
    ensures v.Int? ==> r == v.i
    ensures v.Str? ==> r == LeadingInt(v.s)
  {
    match v
    case Null => 0
    case Bool(b) => if b then 1 else 0
    case Int(i) => i
    case Str(s) => LeadingInt(s)
    case List(items) => if |items| > 0 then 1 else 0
    case Dict(entries) => if |entries| > 0 then 1 else 0
  }

  // ---------------------------------------------------------------------------
  // buildConfiguration
  // ---------------------------------------------------------------------------

  function HostValue(host: Option<string>): Value {
    match host
    case Some(h) => Str(h)
    case None => Null
  }

  /** Reference definition of the precedence: DSN query, then explicit options, then defaults. */
  function Pick(k: string, query: Options, options: Options): Value
    requires k in DefaultOptions
  {
    if k in query then query[k]
    else if k in options then options[k]
    else DefaultOptions[k]
  }

  /**
   * Resolves a DSN and explicit options into a configuration. PHP's `+` keeps the
   * left operand's entries, so the host wins over everything, the query over the
   * options and the options over the defaults; unknown option keys are refused,
   * those of the options before those of the query.
   */
  function BuildConfiguration(dsn: Option<Dsn>, options: Options): (r: Result<Options, ConfigError>)
    ensures r.Err? <==>
      dsn.None? || !(options.Keys <= DefaultOptions.Keys) || !(dsn.value.query.Keys <= DefaultOptions.Keys)
    ensures dsn.None? ==> r == Err(InvalidDsn)
    ensures dsn.Some? && !(options.Keys <= DefaultOptions.Keys) ==>
      r == Err(UnknownOptions(options.Keys - DefaultOptions.Keys))
    ensures dsn.Some? && options.Keys <= DefaultOptions.Keys && !(dsn.value.query.Keys <= DefaultOptions.Keys) ==>
      r == Err(UnknownDsnOptions(dsn.value.query.Keys - DefaultOptions.Keys))
    ensures r.Ok? ==> r.value.Keys == DefaultOptions.Keys + {"connection"}
    ensures r.Ok? ==> r.value["connection"] == HostValue(dsn.value.host)
    ensures r.Ok? ==> forall k :: k in DefaultOptions && k != "auto_setup" ==>
      r.value[k] == Pick(k, dsn.value.query, options)
    ensures r.Ok? ==> r.value["auto_setup"] == Bool(FilterBool(Pick("auto_setup", dsn.value.query, options)))
  {
    if dsn.None? then Err(InvalidDsn)
    else
      var query := dsn.value.query;
      var merged := DefaultOptions + options + query + map["connection" := HostValue(dsn.value.host)];
      var configuration := merged["auto_setup" := Bool(FilterBool(merged["auto_setup"]))];
      if !(options.Keys <= DefaultOptions.Keys) then Err(UnknownOptions(options.Keys - DefaultOptions.Keys))
      else if !(query.Keys <= DefaultOptions.Keys) then Err(UnknownDsnOptions(query.Keys - DefaultOptions.Keys))
      else Ok(configuration)
  }

  /** Passing the connection name as an explicit option is refused: it is not a default key. */
  lemma ConnectionOptionRejected(dsn: Dsn, options: Options)
    requires "connection" in options
    ensures BuildConfiguration(Some(dsn), options).Err?
    ensures BuildConfiguration(Some(dsn), options).error.UnknownOptions?
    ensures "connection" in BuildConfiguration(Some(dsn), options).error.keys
  {
  }

  // ---------------------------------------------------------------------------
  // array_replace_recursive, as the constructor applies it
  // ---------------------------------------------------------------------------

  predicate SameArrayShape(a: Value, b: Value) {
    (a.Dict? && b.Dict?) || (a.List? && b.List?)
  }

  /** Replaces `a` by `b`, descending into arrays both sides hold. */
  function Replace(a: Value, b: Value): (r: Value)
    ensures !SameArrayShape(a, b) ==> r == b
    decreases b
  {
    match (a, b)
    case (Dict(x), Dict(y)) =>
      Dict(map k | k in x.Keys + y.Keys ::
        if k in x && k in y then Replace(x[k], y[k]) else if k in y then y[k] else x[k])
    case (List(x), List(y)) =>
      var n := if |x| > |y| then |x| else |y|;
      List(seq(n, i requires 0 <= i < n =>
        if i < |x| && i < |y| then Replace(x[i], y[i]) else if i < |y| then y[i] else x[i]))
    case _ => b
  }

  /** `array_replace_recursive($base, $repl)` over option arrays. */
  function ReplaceRecursive(base: Options, repl: Options): (r: Options)
    ensures r.Keys == base.Keys + repl.Keys
    ensures forall k :: k in repl && !(k in base && SameArrayShape(base[k], repl[k])) ==> r[k] == repl[k]
    ensures forall k :: k in base && k !in repl ==> r[k] == base[k]
    ensures forall k :: k in base && k in repl && SameArrayShape(base[k], repl[k]) ==>
      r[k] == Replace(base[k], repl[k])
  {
    Replace(Dict(base), Dict(repl)).entries
  }

  /** Replacing a value by itself leaves it as it was, at every depth. */
  lemma {:induction false} ReplaceSelf(v: Value)
    ensures Replace(v, v) == v
    decreases v
  {
    match v
    case Dict(x) =>
      forall k | k in x
        ensures Replace(x[k], x[k]) == x[k]
      {
        ReplaceSelf(x[k]);
      }
      assert Replace(v, v).entries == x;
    case List(x) =>
      forall i | 0 <= i < |x|
        ensures Replace(x[i], x[i]) == x[i]
      {
        ReplaceSelf(x[i]);
      }
      assert Replace(v, v).items == x;
    case _ =>
  }

  // ---------------------------------------------------------------------------
  // The typed view the store reads
  // ---------------------------------------------------------------------------

  /** The settings the store consults, read from a merged configuration. */
  datatype Settings = Settings(
    providerName: Option<string>,
    templateName: Option<string>,
    redeliverTimeout: int,
    receiveTimeout: int,
    models: seq<Value>)

  /** `$configuration[$k]`; a missing key reads as null. */
  function Lookup(c: Options, k: string): Value {
    if k in c then c[k] else Null
  }

  /** A name bound as a query parameter; anything but a string binds as SQL NULL. */
  function AsName(v: Value): Option<string> {
    if v.Str? then Some(v.s) else None
  }

  /** `$conf['payload']['models']`; anything else iterates as an empty list. */
  function ModelsOf(c: Options): seq<Value> {
    var payload := Lookup(c, "payload");
    if payload.Dict? && "models" in payload.entries && payload.entries["models"].List?
    then payload.entries["models"].items
    else []
  }

  function SettingsOf(c: Options): Settings {
    Settings(
      AsName(Lookup(c, "provider_name")),
      AsName(Lookup(c, "template_name")),
      AsInt(Lookup(c, "redeliver_timeout")),
      AsInt(Lookup(c, "receive_timeout")),
      ModelsOf(c))
  }
}
