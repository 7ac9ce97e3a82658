/** Foxy's configuration lookup: a value comes from the `FOXY__*` environment
    variable of the key, else from the configured values, else from the
    defaults, and `manager-*` keys holding a map pick the entry of the
    selected asset manager. Environment values are converted to booleans,
    integers or JSON documents, and cached once read. */
module Configuration {
  import opened Wrappers
  import Strings
  import OrderedMap
  import opened PhpValue

  /** The process environment as `getenv` sees it. */
  type Env = map<string, string>

  /** The configured values, the defaults table, and `json_decode($v, true)`
      (`None` when the decoder reports an error). */
  datatype Config = Config(
    values: OrderedMap.Entries<Value>,
    defaults: OrderedMap.Entries<Value>,
    decodeJson: string -> Option<Value>)

  const EnvPrefix: string := "FOXY__"
  const ManagerPrefix: string := "manager-"

  /** The environment variable of a configuration key. */
  function EnvKey(key: string): (r: string)
    ensures Strings.StartsWith(r, EnvPrefix)
    ensures |r| == |EnvPrefix| + |key|
    ensures forall i :: 0 <= i < |key| ==>
      r[|EnvPrefix| + i] == Strings.UpperChar(if key[i] == '-' then '_' else key[i])
  {
    Strings.ReplaceCharByChar(key, '-', '_');
    EnvPrefix + Strings.Upper(Strings.ReplaceAll(key, "-", "_"))
  }

  /** Words read as booleans, whatever their case. */
  const BooleanWords: seq<string> := ["true", "false", "1", "0", "yes", "no", "y", "n"]

  /** Words read as `true`, in exactly this case. */
  const TrueWords: seq<string> := ["true", "1", "yes", "y"]

  predicate IsBoolean(v: string) {
    Strings.Lower(v) in BooleanWords
  }

  function ConvertBoolean(v: string): bool {
    v in TrueWords
  }

  /** Digits only once every leading and trailing `-` is trimmed. */
  predicate IsInteger(v: string) {
    Strings.CtypeDigit(Strings.Trim(v, {'-'}))
  }

  predicate IsJson(v: string) {
    Strings.StartsWith(v, "{") || Strings.StartsWith(v, "[")
  }

  /** Surrounding single quotes, then double quotes, then white space stripped. */
  function Unquote(raw: string): string {
    Strings.TrimSpace(Strings.Trim(Strings.Trim(raw, {'\''}), {'"'}))
  }

  function JsonError(envVar: string): Error {
    RuntimeError("The \"" + envVar + "\" environment variable isn't a valid JSON")
  }

  /** The value of an environment variable as a PHP value. */
  function ConvertEnvValue(c: Config, raw: string, envVar: string): Result<Value> {
    Classify(c, Unquote(raw), envVar)
  }

  /** The unquoted value: a boolean word, else an integer, else a JSON
      document, else the string itself. */
  function Classify(c: Config, v: string, envVar: string): Result<Value> {
    if IsBoolean(v) then Success(Bool(ConvertBoolean(v)))
    else if IsInteger(v) then Success(Int(Strings.IntCast(v)))
    else if IsJson(v) then
      match c.decodeJson(v)
      case Some(j) => Success(j)
      case None => Failure(JsonError(envVar))
    else Success(Str(v))
  }

  /** Unquoting leaves alone a string that neither starts nor ends with a
      quote or white space. */
  lemma UnquoteKeeps(s: string)
    requires |s| > 0 ==> s[0] !in {'\'', '"'} + Strings.TrimSet && s[|s| - 1] !in {'\'', '"'} + Strings.TrimSet
    ensures Unquote(s) == s
  {
    Strings.TrimKeeps(s, {'\''});
    Strings.TrimKeeps(s, {'"'});
    Strings.TrimKeeps(s, Strings.TrimSet);
  }

  /** Every boolean word is a single digit or starts with a letter. */
  lemma BooleanWordShape(w: string)
    requires w in BooleanWords
    ensures w == "1" || w == "0" || (|w| > 0 && Strings.IsLower(w[0]))
  {
  }

  /** A string starting with a character that is neither a letter nor a
      digit is no boolean word. */
  lemma NotBooleanWhenPunctuation(v: string)
    requires |v| > 0 && !Strings.IsLetter(v[0]) && !Strings.IsDigit(v[0])
    ensures !IsBoolean(v)
  {
    var l := Strings.Lower(v);
    assert l[0] == v[0];
    if l in BooleanWords {
      BooleanWordShape(l);
    }
  }

  /** The shape of `sprintf('%d', n)`: an optional minus sign, then the
      decimal digits of the magnitude. */
  lemma IntStringShape(n: int)
    ensures |Strings.IntToString(n)| > 0
    ensures Strings.Trim(Strings.IntToString(n), {'-'}) == Strings.Decimal(if n < 0 then -n else n)
    ensures Strings.CtypeDigit(Strings.Decimal(if n < 0 then -n else n))
    ensures Strings.IntToString(n)[0] == '-' || Strings.IsDigit(Strings.IntToString(n)[0])
    ensures Strings.IsDigit(Strings.IntToString(n)[|Strings.IntToString(n)| - 1])
  {
    var m: nat := if n < 0 then -n else n;
    var d := Strings.Decimal(m);
    Strings.DecimalRoundTrip(m);
    assert Strings.IsDigit(d[0]) && Strings.IsDigit(d[|d| - 1]);
    if n < 0 {
      assert Strings.IntToString(n) == [ '-' ] + d;
      Strings.TrimLeadingOne('-', d, {'-'});
    } else {
      assert Strings.IntToString(n) == d;
      Strings.TrimKeeps(d, {'-'});
    }
  }

  /** The printed integers 0 and 1 are boolean words. */
  lemma SmallIntIsBoolean(n: int)
    requires n == 0 || n == 1
    ensures Strings.IntToString(n) == [Strings.DigitChar(n)]
    ensures IsBoolean(Strings.IntToString(n))
  {
    var s := Strings.IntToString(n);
    assert s == [Strings.DigitChar(n)];
    assert Strings.Lower(s) == s;
  }

  /** No printed negative integer is a boolean word. */
  lemma NegativeIntNotBoolean(n: int)
    requires n < 0
    ensures !IsBoolean(Strings.IntToString(n))
  {
    var s := Strings.IntToString(n);
    assert s[0] == '-';
    NotBooleanWhenPunctuation(s);
  }

  /** No printed integer above 1 is a boolean word. */
  lemma LargeIntNotBoolean(n: int)
    requires n > 1
    ensures !IsBoolean(Strings.IntToString(n))
  {
    var s := Strings.Decimal(n);
    var l := Strings.Lower(s);
    assert l[0] == s[0];
    assert |s| == 1 ==> s == [Strings.DigitChar(n)];
    if l in BooleanWords {
      BooleanWordShape(l);
    }
  }

  /** A string that unquotes to itself and reads as an integer without
      being a boolean word converts to that integer. */
  lemma IntegerValue(c: Config, s: string, envVar: string)
    requires Unquote(s) == s && !IsBoolean(s) && IsInteger(s)
    ensures ConvertEnvValue(c, s, envVar) == Success(Int(Strings.IntCast(s)))
  {
  }

  /** A boolean word that unquotes to itself converts to its truth value. */
  lemma BooleanValue(c: Config, s: string, envVar: string)
    requires Unquote(s) == s && IsBoolean(s)
    ensures ConvertEnvValue(c, s, envVar) == Success(Bool(s in TrueWords))
  {
  }

  /** A printed integer other than 0 and 1 converts back to itself. */
  lemma PrintedIntegerValue(c: Config, n: int, envVar: string)
    requires Strings.IntMin <= n <= Strings.IntMax && n != 0 && n != 1
    ensures ConvertEnvValue(c, Strings.IntToString(n), envVar) == Success(Int(n))
  {
    hide ConvertEnvValue, Unquote;
    var s := Strings.IntToString(n);
    IntStringShape(n);
    UnquoteKeeps(s);
    if n < 0 {
      NegativeIntNotBoolean(n);
    } else {
      LargeIntNotBoolean(n);
    }
    Strings.IntCastIntToString(n);
    IntegerValue(c, s, envVar);
  }

  /** A printed integer read back from the environment is that integer,
      except that "0" and "1" are taken for booleans. */
  lemma EnvIntegerRoundTrip(c: Config, n: int, envVar: string)
    requires Strings.IntMin <= n <= Strings.IntMax
    ensures n == 0 ==> ConvertEnvValue(c, Strings.IntToString(n), envVar) == Success(Bool(false))
    ensures n == 1 ==> ConvertEnvValue(c, Strings.IntToString(n), envVar) == Success(Bool(true))
    ensures n != 0 && n != 1 ==> ConvertEnvValue(c, Strings.IntToString(n), envVar) == Success(Int(n))
  {
    if n == 0 || n == 1 {
      var s := Strings.IntToString(n);
      SmallIntIsBoolean(n);
      UnquoteKeeps(s);
      BooleanValue(c, s, envVar);
    } else {
      PrintedIntegerValue(c, n, envVar);
    }
  }

  lemma LowerTrue(c: Config, envVar: string)
    ensures ConvertEnvValue(c, "true", envVar) == Success(Bool(true))
  {
    hide ConvertEnvValue, Unquote;
    UnquoteKeeps("true");
    assert Strings.Lower("true") == "true";
    BooleanValue(c, "true", envVar);
  }

  lemma UpperTrue(c: Config, envVar: string)
    ensures ConvertEnvValue(c, "TRUE", envVar) == Success(Bool(false))
  {
    hide ConvertEnvValue, Unquote;
    UnquoteKeeps("TRUE");
    assert Strings.Lower("TRUE") == "true";
    BooleanValue(c, "TRUE", envVar);
  }

  lemma QuotedYes(c: Config, envVar: string)
    ensures ConvertEnvValue(c, "'yes'", envVar) == Success(Bool(true))
  {
    Strings.TrimSurrounding('\'', "yes", {'\''});
    assert "'yes'" == ['\''] + "yes" + ['\''];
    Strings.TrimKeeps("yes", {'"'});
    Strings.TrimKeeps("yes", Strings.TrimSet);
    assert Unquote("'yes'") == "yes";
    assert Strings.Lower("yes") == "yes";
    assert IsBoolean("yes");
  }

  /** Only the exact lower-case spelling of a true word reads as true, and
      surrounding quotes do not matter. */
  lemma BooleanCase(c: Config, envVar: string)
    ensures ConvertEnvValue(c, "true", envVar) == Success(Bool(true))
    ensures ConvertEnvValue(c, "TRUE", envVar) == Success(Bool(false))
    ensures ConvertEnvValue(c, "'yes'", envVar) == Success(Bool(true))
  {
    LowerTrue(c, envVar);
    UpperTrue(c, envVar);
    QuotedYes(c, envVar);
  }

  /** A value that opens like a JSON document is decoded, and a decoding
      error names the environment variable. */
  lemma JsonValue(c: Config, raw: string, envVar: string)
    requires IsJson(Unquote(raw))
    ensures c.decodeJson(Unquote(raw)).None? ==> ConvertEnvValue(c, raw, envVar) == Failure(JsonError(envVar))
    ensures c.decodeJson(Unquote(raw)).Some? ==> ConvertEnvValue(c, raw, envVar) == Success(c.decodeJson(Unquote(raw)).value)
  {
    var v := Unquote(raw);
    assert v[0] == '{' || v[0] == '[';
    NotBooleanWhenPunctuation(v);
    assert !IsInteger(v) by {
      Strings.TrimLeftStops(v, {'-'});
      Strings.TrimRightFirst(v, {'-'});
    }
  }

  /** Keys starting with `manager-` may look up `manager`, which never does. */
  function Rank(key: string): nat {
    if Strings.StartsWith(key, ManagerPrefix) then 1 else 0
  }

  /** The value of a key with no cache in play: environment first, then the
      configured value, then the default. */
  function Lookup(c: Config, env: Env, key: string, default: Value): Result<Value>
    decreases Rank(key), 2
  {
    var envKey := EnvKey(key);
    if envKey in env then ConvertEnvValue(c, env[envKey], envKey)
    else
      var dv :- DefaultValue(c, env, key, default);
      match OrderedMap.Get(c.values, key)
      case Some(v) => ByManager(c, env, key, v, dv)
      case None => Success(dv)
  }

  /** A non-null explicit default wins over the defaults table. */
  function DefaultValue(c: Config, env: Env, key: string, default: Value): Result<Value>
    decreases Rank(key), 1
  {
    var value := match OrderedMap.Get(c.defaults, key)
      case Some(d) => if default == Null then d else default
      case None => default;
    ByManager(c, env, key, value, default)
  }

  /** A `manager-*` key whose value is a map yields the entry of the selected
      manager, or the default when it has none. */
  function ByManager(c: Config, env: Env, key: string, value: Value, default: Value): Result<Value>
    decreases Rank(key), 0
  {
    if Strings.StartsWith(key, ManagerPrefix) && value.Arr? then
      var manager :- Lookup(c, env, "manager", Str(""));
      var name :- ToKey(manager);
      Success(OrderedMap.Get(value.entries, name).GetOr(default))
    else Success(value)
  }

  /** The three sources of a plain key, in order of precedence. */
  lemma Precedence(c: Config, env: Env, key: string, default: Value)
    requires !Strings.StartsWith(key, ManagerPrefix)
    ensures EnvKey(key) in env ==>
      Lookup(c, env, key, default) == ConvertEnvValue(c, env[EnvKey(key)], EnvKey(key))
    ensures EnvKey(key) !in env && OrderedMap.HasKey(c.values, key) ==>
      Lookup(c, env, key, default) == Success(OrderedMap.Get(c.values, key).value)
    ensures EnvKey(key) !in env && !OrderedMap.HasKey(c.values, key) ==>
      Lookup(c, env, key, default)
      == Success(if default == Null && OrderedMap.HasKey(c.defaults, key) then OrderedMap.Get(c.defaults, key).value else default)
  {
    var dv := if default == Null && OrderedMap.HasKey(c.defaults, key) then OrderedMap.Get(c.defaults, key).value else default;
    assert DefaultValue(c, env, key, default) == ByManager(c, env, key, dv, default) == Success(dv);
    if OrderedMap.HasKey(c.values, key) {
      var v := OrderedMap.Get(c.values, key).value;
      assert ByManager(c, env, key, v, dv) == Success(v);
    }
  }

  /** What a `manager-*` key falls back to when the selected manager has no
      entry of its own: the explicit default, or the defaults table's value
      when the explicit default is null; when that is itself a per-manager
      map, its entry for the manager, else the explicit default. */
  function ManagerFallback(c: Config, key: string, default: Value, manager: string): Value {
    var base := if default == Null && OrderedMap.HasKey(c.defaults, key) then OrderedMap.Get(c.defaults, key).value else default;
    if base.Arr? then OrderedMap.Get(base.entries, manager).GetOr(default) else base
  }

  /** A configured per-manager map answers with the entry of the selected
      manager, falling back to the explicit default, or, for a null default,
      to the defaults table's value for that manager. */
  lemma ManagerSelection(c: Config, env: Env, key: string, default: Value, entries: OrderedMap.Entries<Value>, manager: string)
    requires Strings.StartsWith(key, ManagerPrefix)
    requires EnvKey(key) !in env
    requires OrderedMap.Get(c.values, key) == Some(Arr(entries))
    requires Lookup(c, env, "manager", Str("")) == Success(Str(manager))
    ensures Lookup(c, env, key, default) == Success(OrderedMap.Get(entries, manager).GetOr(ManagerFallback(c, key, default, manager)))
    ensures default != Null && !default.Arr? ==>
      Lookup(c, env, key, default) == Success(OrderedMap.Get(entries, manager).GetOr(default))
    ensures default == Null && !OrderedMap.HasKey(c.defaults, key) ==>
      Lookup(c, env, key, default) == Success(OrderedMap.Get(entries, manager).GetOr(Null))
    ensures default == Null && OrderedMap.Get(c.defaults, key).Some? && !OrderedMap.Get(c.defaults, key).value.Arr? ==>
      Lookup(c, env, key, default) == Success(OrderedMap.Get(entries, manager).GetOr(OrderedMap.Get(c.defaults, key).value))
  {
    var dv := ManagerFallback(c, key, default, manager);
    ManagerDefault(c, env, key, default, manager);
    hide DefaultValue;
    assert Lookup(c, env, key, default) == ByManager(c, env, key, Arr(entries), dv);
  }

  /** The default side of a `manager-*` key is the fallback above. */
  lemma ManagerDefault(c: Config, env: Env, key: string, default: Value, manager: string)
    requires Strings.StartsWith(key, ManagerPrefix)
    requires Lookup(c, env, "manager", Str("")) == Success(Str(manager))
    ensures DefaultValue(c, env, key, default) == Success(ManagerFallback(c, key, default, manager))
  {
    var base := if default == Null && OrderedMap.HasKey(c.defaults, key) then OrderedMap.Get(c.defaults, key).value else default;
    hide Lookup;
    assert DefaultValue(c, env, key, default) == ByManager(c, env, key, base, default);
  }

  /** `Config::get`, with the cache of environment values threaded through:
      a cached key answers from the cache, and a value read from the
      environment is stored in it. */
  function Get(c: Config, cache: map<string, Value>, env: Env, key: string, default: Value): (r: (Result<Value>, map<string, Value>))
    ensures forall k :: k in cache ==> k in r.1 && r.1[k] == cache[k]
    decreases Rank(key), 2
  {
    if key in cache then (Success(cache[key]), cache)
    else
      var envKey := EnvKey(key);
      if envKey in env then
        var v := ConvertEnvValue(c, env[envKey], envKey);
        (v, if v.Success? then cache[key := v.value] else cache)
      else
        var dv := GetDefaultValue(c, cache, env, key, default);
        if dv.0.Failure? then dv
        else match OrderedMap.Get(c.values, key)
          case Some(v) => GetByManager(c, dv.1, env, key, v, dv.0.value)
          case None => dv
  }

  function GetDefaultValue(c: Config, cache: map<string, Value>, env: Env, key: string, default: Value): (r: (Result<Value>, map<string, Value>))
    ensures forall k :: k in cache ==> k in r.1 && r.1[k] == cache[k]
    decreases Rank(key), 1
  {
    var value := match OrderedMap.Get(c.defaults, key)
      case Some(d) => if default == Null then d else default
      case None => default;
    GetByManager(c, cache, env, key, value, default)
  }

  function GetByManager(c: Config, cache: map<string, Value>, env: Env, key: string, value: Value, default: Value): (r: (Result<Value>, map<string, Value>))
    ensures forall k :: k in cache ==> k in r.1 && r.1[k] == cache[k]
    decreases Rank(key), 0
  {
    if Strings.StartsWith(key, ManagerPrefix) && value.Arr? then
      var m := Get(c, cache, env, "manager", Str(""));
      if m.0.Failure? then m
      else match ToKey(m.0.value)
        case Failure(e) => (Failure(e), m.1)
        case Success(name) => (Success(OrderedMap.Get(value.entries, name).GetOr(default)), m.1)
    else (Success(value), cache)
  }

  /** Every cached value is the converted value of the key's variable. */
  predicate CacheFaithful(c: Config, cache: map<string, Value>, env: Env) {
    forall k :: k in cache ==>
      EnvKey(k) in env && ConvertEnvValue(c, env[EnvKey(k)], EnvKey(k)) == Success(cache[k])
  }

  /** While the environment stays as it was, the cache is invisible: `get`
      answers what the uncached lookup does, and the cache stays faithful. */
  lemma {:induction false} GetAgrees(c: Config, cache: map<string, Value>, env: Env, key: string, default: Value)
    requires CacheFaithful(c, cache, env)
    ensures Get(c, cache, env, key, default).0 == Lookup(c, env, key, default)
    ensures CacheFaithful(c, Get(c, cache, env, key, default).1, env)
    decreases Rank(key), 2
  {
    hide GetByManager, ByManager, ConvertEnvValue;
    if key !in cache && EnvKey(key) !in env {
      DefaultAgrees(c, cache, env, key, default);
      var dv := GetDefaultValue(c, cache, env, key, default);
      if dv.0.Success? {
        match OrderedMap.Get(c.values, key)
        case Some(v) => ByManagerAgrees(c, dv.1, env, key, v, dv.0.value);
        case None =>
      }
    }
  }

  lemma {:induction false} DefaultAgrees(c: Config, cache: map<string, Value>, env: Env, key: string, default: Value)
    requires CacheFaithful(c, cache, env)
    ensures GetDefaultValue(c, cache, env, key, default).0 == DefaultValue(c, env, key, default)
    ensures CacheFaithful(c, GetDefaultValue(c, cache, env, key, default).1, env)
    decreases Rank(key), 1
  {
    var value := match OrderedMap.Get(c.defaults, key)
      case Some(d) => if default == Null then d else default
      case None => default;
    ByManagerAgrees(c, cache, env, key, value, default);
  }

  lemma {:induction false} ByManagerAgrees(c: Config, cache: map<string, Value>, env: Env, key: string, value: Value, default: Value)
    requires CacheFaithful(c, cache, env)
    ensures GetByManager(c, cache, env, key, value, default).0 == ByManager(c, env, key, value, default)
    ensures CacheFaithful(c, GetByManager(c, cache, env, key, value, default).1, env)
    decreases Rank(key), 0
  {
    hide Get, Lookup, ToKey, ConvertEnvValue;
    if Strings.StartsWith(key, ManagerPrefix) && value.Arr? {
      GetAgrees(c, cache, env, "manager", Str(""));
    }
  }

  /** Once a key's environment value has been read, later lookups of the key
      return it even if the environment or the default changes. */
  lemma EnvValueSticks(c: Config, cache: map<string, Value>, env: Env, env': Env, key: string, default: Value, default': Value)
    requires key in cache || EnvKey(key) in env
    requires Get(c, cache, env, key, default).0.Success?
    ensures Get(c, Get(c, cache, env, key, default).1, env', key, default').0 == Get(c, cache, env, key, default).0
  {
  }

  /** `Config::getArray`: the value cast to an array, or the default when the
      value is null. */
  function GetArray(c: Config, cache: map<string, Value>, env: Env, key: string, default: OrderedMap.Entries<Value>): (r: (Result<OrderedMap.Entries<Value>>, map<string, Value>))
    ensures r.1 == Get(c, cache, env, key, Null).1
    ensures r.0.Success? <==> Get(c, cache, env, key, Null).0.Success?
    ensures r.0.Success? && Get(c, cache, env, key, Null).0.value != Null ==>
      r.0.value == ToArray(Get(c, cache, env, key, Null).0.value)
    ensures r.0.Success? && Get(c, cache, env, key, Null).0.value.Arr? ==>
      r.0.value == Get(c, cache, env, key, Null).0.value.entries
    ensures r.0.Success? && !Get(c, cache, env, key, Null).0.value.Arr? && Get(c, cache, env, key, Null).0.value != Null ==>
      r.0.value == [("0", Get(c, cache, env, key, Null).0.value)]
    ensures r.0.Success? && Get(c, cache, env, key, Null).0.value == Null ==> r.0.value == default
  {
    var v := Get(c, cache, env, key, Null);
    match v.0
    case Failure(e) => (Failure(e), v.1)
    case Success(x) => (Success(if x != Null then ToArray(x) else default), v.1)
  }
}
