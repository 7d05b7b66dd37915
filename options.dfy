/**
 * The immutable option record a command carries: the environment overlay and
 * whether the parent environment is inherited, where each standard stream is
 * redirected, and an alternate display name. Every setter returns a new
 * record; equality is structural over all of these fields.
 */
module CommandOptions {
  import opened Wrappers
  import opened Bytes
  import opened Errors
  import Decimal

  /** What a standard stream may be redirected to, as the caller writes it. */
  datatype Target =
    /** The stream's default wiring. */
    | DefaultTarget
    /** A `str`: a file name (for stdin, literal input text). */
    | TextTarget(text: string)
    /** A `bytes`: a file name (for stdin, literal input bytes). */
    | BytesTarget(bytes: seq<byte>)
    /** A `Path` value. */
    | PathTarget(path: string)
    /** An open file descriptor. */
    | FileDescriptor(fd: int)
    /** The discard marker, `DEVNULL`. */
    | DevNull
    /** The capture marker (written `...` in the tests). */
    | Capture
    /** The inherit marker. */
    | Inherit
    /** The merge-into-stdout marker (for stderr). */
    | MergeStdout

  /** An output redirection and whether a file target is appended to. */
  datatype Redirect = Redirect(target: Target, append: bool)

  /** A value given for an environment variable; it is stored as its `str()`. */
  datatype EnvValue = EnvText(text: string) | EnvInt(i: int) | EnvBool(b: bool)

  /** One keyword of `Options.set(...)`. */
  datatype Setting = InheritEnv(inherit: bool) | AltName(name: Option<string>)

  datatype Options = Options(
    env: Option<map<string, string>>,
    inheritEnv: bool,
    stdin: Target,
    stdout: Redirect,
    stderr: Redirect,
    altName: Option<string>)

  /** `Options()`: no overlay, inherit the parent environment, default streams, no alternate name. */
  const Default: Options :=
    Options(None, true, DefaultTarget, Redirect(DefaultTarget, false), Redirect(DefaultTarget, false), None)

  /** Python `str()` of an environment value. */
  function ValueText(v: EnvValue): string
  {
    match v
    case EnvText(t) => t
    case EnvInt(i) => Decimal.IntToText(i)
    case EnvBool(b) => if b then "True" else "False"
  }

  /** Every value of `vars` as text. */
  function Stringify(vars: map<string, EnvValue>): (m: map<string, string>)
    ensures m.Keys == vars.Keys
    ensures forall k :: k in m ==> m[k] == ValueText(vars[k])
  {
    map k | k in vars :: ValueText(vars[k])
  }

  /** The overlay, empty when none is set. */
  function Overlay(o: Options): map<string, string>
  {
    if o.env.Some? then o.env.value else map[]
  }

  /** `set_env(vars)`: adds the stringified variables to the overlay, replacing values of keys already there. */
  function SetEnv(o: Options, vars: map<string, EnvValue>): (r: Options)
    ensures r.env.Some?
    ensures r.env.value.Keys == Overlay(o).Keys + vars.Keys
    ensures forall k :: k in vars ==> r.env.value[k] == ValueText(vars[k])
    ensures forall k :: k in Overlay(o) && k !in vars ==> r.env.value[k] == Overlay(o)[k]
    ensures r.(env := o.env) == o
  {
    o.(env := Some(Overlay(o) + Stringify(vars)))
  }

  /** One keyword of `set` applied to `o`. */
  function SetOne(o: Options, s: Setting): (r: Options)
    ensures s.InheritEnv? ==> r == o.(inheritEnv := s.inherit)
    ensures s.AltName? ==> r == o.(altName := s.name)
  {
    match s
    case InheritEnv(b) => o.(inheritEnv := b)
    case AltName(n) => o.(altName := n)
  }

  /** `set(**kwargs)`: applies each keyword in turn. */
  function Set(o: Options, settings: seq<Setting>): (r: Options)
    ensures r.(inheritEnv := o.inheritEnv, altName := o.altName) == o
    decreases |settings|
  {
    if settings == [] then o else Set(SetOne(o, settings[0]), settings[1..])
  }

  /** Whether two keywords of `set` name the same option. */
  predicate SameKeyword(a: Setting, b: Setting)
  {
    a.InheritEnv? == b.InheritEnv?
  }

  /** `settings[k]` is the last keyword in `settings` naming its option (with distinct keywords, every one is). */
  predicate LastOccurrence(settings: seq<Setting>, k: nat)
  {
    k < |settings| && forall j :: k < j < |settings| ==> !SameKeyword(settings[j], settings[k])
  }

  /**
   * `merge_env()`: the environment a child process gets, or `None` for
   * "inherit the parent's unchanged". `inherited` stands for the parent's
   * environment at the time of the call; a child that does not inherit gets
   * exactly the overlay, empty when there is none.
   */
  function MergeEnv(o: Options, inherited: map<string, string>): (r: Option<map<string, string>>)
    ensures r.None? <==> o.env.None? && o.inheritEnv
    ensures !o.inheritEnv ==> r == Some(Overlay(o))
    ensures o.env.Some? && o.inheritEnv ==>
      && r.value.Keys == inherited.Keys + o.env.value.Keys
      && (forall k :: k in o.env.value ==> r.value[k] == o.env.value[k])
      && (forall k :: k in inherited && k !in o.env.value ==> r.value[k] == inherited[k])
  {
    match o.env
    case None => if o.inheritEnv then None else Some(map[])
    case Some(overlay) => if o.inheritEnv then Some(inherited + overlay) else Some(overlay)
  }

  /** Targets that name a file: text, bytes and `Path` values. */
  predicate IsPathLike(t: Target)
  {
    t.TextTarget? || t.BytesTarget? || t.PathTarget?
  }

  /** Checks a redirection: `append` is only accepted with a file name target. */
  function CheckRedirect(t: Target, append: bool): (r: Result<Redirect, Error>)
    ensures r.Err? <==> append && !IsPathLike(t)
    ensures r.Err? ==> ClassOf(r.error) == TypeError && Contains(Message(r.error), "append")
    ensures r.Ok? ==> r.value == Redirect(t, append)
  {
    if append && !IsPathLike(t) then Err(AppendNotAllowed) else Ok(Redirect(t, append))
  }

  /** Adding variables twice is adding their union at once, the later values winning. */
  lemma SetEnvAccumulates(o: Options, first: map<string, EnvValue>, second: map<string, EnvValue>)
    ensures SetEnv(SetEnv(o, first), second) == SetEnv(o, first + second)
  {
    var lhs := SetEnv(SetEnv(o, first), second).env.value;
    var rhs := SetEnv(o, first + second).env.value;
    assert lhs.Keys == rhs.Keys;
    forall k | k in lhs ensures lhs[k] == rhs[k] {
    }
    assert lhs == rhs;
  }

  /** Adding variables leaves the options equal exactly when each already has that text in the overlay. */
  lemma SetEnvUnchanged(o: Options, vars: map<string, EnvValue>)
    ensures SetEnv(o, vars) == o <==>
      o.env.Some? && forall k :: k in vars ==> k in o.env.value && o.env.value[k] == ValueText(vars[k])
  {
    if o.env.Some? && forall k :: k in vars ==> k in o.env.value && o.env.value[k] == ValueText(vars[k]) {
      var m := SetEnv(o, vars).env.value;
      assert m.Keys == o.env.value.Keys;
      forall k | k in m ensures m[k] == o.env.value[k] {
      }
      assert m == o.env.value;
    }
  }

  /** Setting one variable to two values gives equal options exactly when the values have equal text. */
  lemma SetEnvSameText(o: Options, key: string, v1: EnvValue, v2: EnvValue)
    ensures SetEnv(o, map[key := v1]) == SetEnv(o, map[key := v2]) <==> ValueText(v1) == ValueText(v2)
  {
    if ValueText(v1) == ValueText(v2) {
      assert Stringify(map[key := v1]) == Stringify(map[key := v2]);
    } else {
      assert SetEnv(o, map[key := v1]).env.value[key] != SetEnv(o, map[key := v2]).env.value[key];
    }
  }

  /** Setting one variable to two integers gives equal options exactly when the integers are equal. */
  lemma SetEnvIntegers(o: Options, key: string, i: int, j: int)
    ensures SetEnv(o, map[key := EnvInt(i)]) == SetEnv(o, map[key := EnvInt(j)]) <==> i == j
  {
    SetEnvSameText(o, key, EnvInt(i), EnvInt(j));
    Decimal.IntToTextInjective(i, j);
  }

  /** Two `set` calls are one call with the keywords of both, in order. */
  lemma {:induction false} SetAppend(o: Options, first: seq<Setting>, second: seq<Setting>)
    ensures Set(Set(o, first), second) == Set(o, first + second)
    decreases |first|
  {
    if first == [] {
      assert first + second == second;
    } else {
      assert (first + second)[1..] == first[1..] + second;
      SetAppend(SetOne(o, first[0]), first[1..], second);
    }
  }

  /** An option that no keyword names keeps its value. */
  lemma {:induction false} SetUnmentioned(o: Options, settings: seq<Setting>)
    ensures (forall j :: 0 <= j < |settings| ==> !settings[j].InheritEnv?) ==> Set(o, settings).inheritEnv == o.inheritEnv
    ensures (forall j :: 0 <= j < |settings| ==> !settings[j].AltName?) ==> Set(o, settings).altName == o.altName
    decreases |settings|
  {
    if settings != [] {
      var o' := SetOne(o, settings[0]);
      SetUnmentioned(o', settings[1..]);
      assert forall j :: 0 <= j < |settings[1..]| ==> settings[1..][j] == settings[j + 1];
    }
  }

  /** Each keyword of `set` takes effect; when a keyword is repeated, its last occurrence decides. */
  lemma {:induction false} SetEachKeyword(o: Options, settings: seq<Setting>, k: nat)
    requires LastOccurrence(settings, k)
    ensures settings[k].InheritEnv? ==> Set(o, settings).inheritEnv == settings[k].inherit
    ensures settings[k].AltName? ==> Set(o, settings).altName == settings[k].name
    decreases |settings|
  {
    var o' := SetOne(o, settings[0]);
    var rest := settings[1..];
    assert forall j :: 0 <= j < |rest| ==> rest[j] == settings[j + 1];
    if k == 0 {
      assert forall j :: 0 <= j < |rest| ==> !SameKeyword(rest[j], settings[0]);
      SetUnmentioned(o', rest);
    } else {
      assert rest[k - 1] == settings[k];
      SetEachKeyword(o', rest, k - 1);
    }
  }

  /** Setting `inherit_env` leaves the options equal exactly when it already had that value. */
  lemma SetInheritEnv(o: Options, b: bool)
    ensures Set(o, [InheritEnv(b)]) == o <==> o.inheritEnv == b
    ensures Set(o, [InheritEnv(b)]).inheritEnv == b
  {
    SetEachKeyword(o, [InheritEnv(b)], 0);
  }
}
