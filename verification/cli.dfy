/**
 * The command-line side of farconf/cli.py: tokens such as `--set=a.b=2` are
 * folded left to right into a configuration dict, and `ObjToCli` prints a
 * dict back as `path=json` tokens.
 *
 * JSON text, YAML files and Python functions are outside the model: they are
 * reached through the functions of an `Env`, given as parameters.
 */
module Cli {
  import opened Values
  import opened Strings
  import ConfigOps
  import Serialize

  /** `_sequence_is_leaf_if_different`: a changed list (or string) is replaced whole. */
  predicate SeqLeafIfDifferent(cFrom: Value, cTo: Value)
  {
    ConfigOps.IsSequence(cTo) && !Same(cFrom, cTo)
  }

  /**
   * The diff used for the command line never holds a partial list overlay:
   * a changed list is replaced by an Atom.
   */
  lemma CliDiffReplacesLists(cFrom: Value, cTo: Value)
    requires cFrom.Arr? && cTo.Arr? && !Same(cFrom, cTo)
    ensures ConfigOps.Diff(cFrom, cTo, SeqLeafIfDifferent) == Atom(cTo)
  {
  }

  /** The round trip with the command-line policy in diff and the default in merge. */
  lemma RoundTripCli(cFrom: Value, cTo: Value)
    requires WellFormed(cTo) && AtomFree(cTo)
    ensures Same(ConfigOps.Merge(cFrom, ConfigOps.Diff(cFrom, cTo, SeqLeafIfDifferent), ConfigOps.Never), cTo)
  {
    ConfigOps.RoundTrip(cFrom, cTo, SeqLeafIfDifferent);
  }

  // ---------------------------------------------------------------------
  // _equals_key_and_value

  /** `_equals_key_and_value`: the text before the first `=`, and the rest. */
  function EqualsKeyAndValue(s: string): (string, string)
  {
    var parts := Split(s, '=');
    (parts[0], Join(parts[1..], '='))
  }

  /** The key holds no `=`; with an `=` the two halves rebuild s, without one the value is empty. */
  lemma EqualsKeyAndValueSpec(s: string)
    ensures '=' !in EqualsKeyAndValue(s).0
    ensures '=' in s ==> EqualsKeyAndValue(s).0 + "=" + EqualsKeyAndValue(s).1 == s
    ensures '=' !in s ==> EqualsKeyAndValue(s) == (s, "")
  {
    var parts := Split(s, '=');
    SplitPiecesFree(s, '=');
    if '=' in s {
      CountZero(s, '=');
      SplitCount(s, '=');
      JoinSplit(s, '=');
    } else {
      SplitNoSep(s, '=');
    }
  }

  /** Splitting `key=value` at its first `=` gives key and value back. */
  lemma EqualsKeyAndValueOf(key: string, value: string)
    requires '=' !in key
    ensures EqualsKeyAndValue(key + "=" + value) == (key, value)
  {
    SplitAfterFirst(key, '=', value);
    JoinSplit(value, '=');
    assert Split(key + "=" + value, '=')[1..] == Split(value, '=');
  }

  // ---------------------------------------------------------------------
  // assign_from_dotlist

  /**
   * Writes v at the path keys below out; a missing or non-dict value met on
   * the way is replaced by a new dict.
   */
  function AssignPath(out: seq<Field>, keys: seq<string>, v: Value): seq<Field>
    requires keys != []
    decreases |keys|
  {
    var k := keys[0];
    if |keys| == 1 then SetKey(out, k, v)
    else SetKey(out, k, Obj(AssignPath(Child(out, k), keys[1..], v)))
  }

  /** The dict under key k, or a new empty one when k holds none. */
  function Child(out: seq<Field>, k: string): seq<Field>
  {
    if HasKey(out, k) && Get(out, k).Obj? then Get(out, k).fields else []
  }

  /** `assign_from_dotlist`: the path is the key split at every `.`. */
  function AssignFromDotlist(out: seq<Field>, dotKey: string, v: Value): seq<Field>
  {
    AssignPath(out, Split(dotKey, '.'), v)
  }

  /** Following keys through nested dicts, as `x[k1][k2]...` would. */
  function GetPath(v: Value, keys: seq<string>): Option<Value>
    decreases |keys|
  {
    if keys == [] then Some(v)
    else if v.Obj? && HasKey(v.fields, keys[0]) then GetPath(Get(v.fields, keys[0]), keys[1..])
    else None
  }

  /** After the assignment, following the path reaches exactly the value written. */
  lemma {:induction false} AssignPathReaches(out: seq<Field>, keys: seq<string>, v: Value)
    requires keys != []
    ensures GetPath(Obj(AssignPath(out, keys, v)), keys) == Some(v)
    decreases |keys|
  {
    var k := keys[0];
    var r := AssignPath(out, keys, v);
    if |keys| == 1 {
      SetKeyKeys(out, k, v);
      SetKeyGet(out, k, v, k);
    } else {
      var child := Child(out, k);
      var w := Obj(AssignPath(child, keys[1..], v));
      SetKeyKeys(out, k, w);
      SetKeyGet(out, k, w, k);
      AssignPathReaches(child, keys[1..], v);
    }
  }

  /**
   * A path that leaves the assigned path at index j sees what it saw before:
   * siblings at every level are untouched.
   */
  lemma {:induction false} AssignPathOffPath(out: seq<Field>, keys: seq<string>, v: Value, q: seq<string>, j: nat)
    requires keys != [] && j < |keys| && j < |q|
    requires q[..j] == keys[..j] && q[j] != keys[j]
    ensures GetPath(Obj(AssignPath(out, keys, v)), q) == GetPath(Obj(out), q)
    decreases |keys|
  {
    var k := keys[0];
    if j == 0 {
      var w := if |keys| == 1 then v else Obj(AssignPath(Child(out, k), keys[1..], v));
      assert AssignPath(out, keys, v) == SetKey(out, k, w);
      SetKeyGetPath(out, k, w, q);
    } else {
      assert q[0] == k && |keys| > 1;
      var sub := AssignPath(Child(out, k), keys[1..], v);
      SetKeyGetPath(out, k, Obj(sub), q);
      assert q[1..][..j - 1] == keys[1..][..j - 1];
      AssignPathOffPath(Child(out, k), keys[1..], v, q[1..], j - 1);
      assert GetPath(Obj(Child(out, k)), q[1..]) == GetPath(Obj(out), q);
    }
  }

  /** Following a path after `d[k] = w`: through w when the path starts at k, as before otherwise. */
  lemma SetKeyGetPath(out: seq<Field>, k: string, w: Value, q: seq<string>)
    requires q != []
    ensures q[0] != k ==> GetPath(Obj(SetKey(out, k, w)), q) == GetPath(Obj(out), q)
    ensures q[0] == k ==> GetPath(Obj(SetKey(out, k, w)), q) == GetPath(w, q[1..])
  {
    SetKeyKeys(out, k, w);
    if HasKey(SetKey(out, k, w), q[0]) {
      SetKeyGet(out, k, w, q[0]);
    }
  }

  /**
   * Every intermediate segment of the path now holds a dict; where the old
   * tree had no dict there, the new one holds nothing but the rest of the path.
   */
  lemma {:induction false} AssignPathMakesDicts(out: seq<Field>, keys: seq<string>, v: Value, i: nat)
    requires 0 < i < |keys|
    ensures GetPath(Obj(AssignPath(out, keys, v)), keys[..i]).Some?
    ensures GetPath(Obj(AssignPath(out, keys, v)), keys[..i]).value.Obj?
    ensures !(GetPath(Obj(out), keys[..i]).Some? && GetPath(Obj(out), keys[..i]).value.Obj?) ==>
      Keys(GetPath(Obj(AssignPath(out, keys, v)), keys[..i]).value.fields) == [keys[i]]
    decreases |keys|
  {
    var k := keys[0];
    var child := Child(out, k);
    var sub := AssignPath(child, keys[1..], v);
    var p := keys[..i];
    assert AssignPath(out, keys, v) == SetKey(out, k, Obj(sub));
    assert p != [] && p[0] == k && p[1..] == keys[1..][..i - 1];
    SetKeyGetPath(out, k, Obj(sub), p);
    if i == 1 {
      assert p[1..] == [] && GetPath(Obj(sub), p[1..]) == Some(Obj(sub));
      if HasKey(out, k) && Get(out, k).Obj? {
        assert GetPath(Obj(out), p) == GetPath(Get(out, k), p[1..]) == Some(Get(out, k));
      } else {
        assert child == [] && keys[1..][0] == keys[1];
        AssignPathFreshKeys(keys[1..], v);
      }
    } else {
      AssignPathMakesDicts(child, keys[1..], v, i - 1);
      GetPathChild(out, p);
    }
  }

  /** Assigning into an empty dict creates exactly the first key of the path. */
  lemma AssignPathFreshKeys(keys: seq<string>, v: Value)
    requires keys != []
    ensures Keys(AssignPath([], keys, v)) == [keys[0]]
  {
    if |keys| > 1 {
      assert AssignPath([], keys, v) == [Field(keys[0], Obj(AssignPath([], keys[1..], v)))];
    }
  }

  /** A path of two or more keys reaches a dict through the dict under its first key. */
  lemma GetPathChild(out: seq<Field>, p: seq<string>)
    requires |p| > 1
    ensures var a, b := GetPath(Obj(out), p), GetPath(Obj(Child(out, p[0])), p[1..]);
      (a.Some? && a.value.Obj?) || (b.Some? && b.value.Obj?) ==> a == b
  {
    if !(HasKey(out, p[0]) && Get(out, p[0]).Obj?) {
      assert GetPath(Obj([]), p[1..]) == None;
    }
  }

  /** Assigning the same path twice leaves only the second value. */
  lemma {:induction false} AssignPathTwice(out: seq<Field>, keys: seq<string>, v1: Value, v2: Value)
    requires keys != []
    ensures AssignPath(AssignPath(out, keys, v1), keys, v2) == AssignPath(out, keys, v2)
    decreases |keys|
  {
    var k := keys[0];
    if |keys| == 1 {
      SetKeyTwice(out, k, v1, v2);
    } else {
      var child := Child(out, k);
      var sub1 := AssignPath(child, keys[1..], v1);
      SetKeyKeys(out, k, Obj(sub1));
      SetKeyGet(out, k, Obj(sub1), k);
      AssignPathTwice(child, keys[1..], v1, v2);
      SetKeyTwice(out, k, Obj(sub1), Obj(AssignPath(child, keys[1..], v2)));
    }
  }

  /** Assigning into a tree of dicts with distinct keys keeps every dict's keys distinct. */
  lemma {:induction false} AssignPathWellFormed(out: seq<Field>, keys: seq<string>, v: Value)
    requires keys != [] && WellFormed(Obj(out)) && WellFormed(v)
    ensures WellFormed(Obj(AssignPath(out, keys, v)))
    decreases |keys|
  {
    var k := keys[0];
    var w := v;
    if |keys| > 1 {
      var child := Child(out, k);
      if HasKey(out, k) && Get(out, k).Obj? {
        var i := HasKeyAt(out, k);
        assert WellFormed(out[i].val);
      }
      AssignPathWellFormed(child, keys[1..], v);
      w := Obj(AssignPath(child, keys[1..], v));
    }
    SetKeyDistinct(out, k, w);
    SetKeyValues(out, k, w);
  }

  // ---------------------------------------------------------------------
  // INTENDED_JSON and assign_from_keyvalue

  /**
   * `INTENDED_JSON.fullmatch(s)` for the pattern `^.*[\[\]{}"].*$`: one of the
   * five characters occurs, and since `.` does not match a newline, s has none.
   */
  predicate IntendedJson(s: string)
  {
    '\n' !in s && ('[' in s || ']' in s || '{' in s || '}' in s || '"' in s)
  }

  /** The value of `--set`: the JSON reading, else the raw text unless it looks like JSON. */
  function KeyvalueValue(loads: string -> Option<Value>, text: string): Option<Value>
  {
    match loads(text)
    case Some(v) => Some(v)
    case None => if IntendedJson(text) then None else Some(Str(text))
  }

  /** `assign_from_keyvalue`: None when it raises JSONDecodeError, before out is touched. */
  function AssignFromKeyvalue(loads: string -> Option<Value>, out: seq<Field>, keyValuePair: string): Option<seq<Field>>
  {
    var (path, text) := EqualsKeyAndValue(keyValuePair);
    match KeyvalueValue(loads, text)
    case None => None
    case Some(v) => Some(AssignFromDotlist(out, path, v))
  }

  /**
   * A `path=text` assignment stores the JSON reading of text when there is one;
   * otherwise it stores text itself, unless text looks like JSON, which is an error.
   */
  lemma AssignFromKeyvalueSpec(loads: string -> Option<Value>, out: seq<Field>, path: string, text: string)
    requires '=' !in path
    ensures AssignFromKeyvalue(loads, out, path + "=" + text).None? <==> loads(text).None? && IntendedJson(text)
    ensures loads(text).Some? ==>
      AssignFromKeyvalue(loads, out, path + "=" + text) == Some(AssignFromDotlist(out, path, loads(text).value))
    ensures loads(text).None? && !IntendedJson(text) ==>
      AssignFromKeyvalue(loads, out, path + "=" + text) == Some(AssignFromDotlist(out, path, Str(text)))
  {
    EqualsKeyAndValueOf(path, text);
  }

  lemma IntendedJsonExamples()
    ensures IntendedJson("[1, 2")
    ensures IntendedJson("{\"a\": }")
    ensures !IntendedJson("hello world")
    ensures !IntendedJson("[1,\n")
  {
    assert "[1, 2"[0] == '[';
    assert "{\"a\": }"[0] == '{';
    assert "[1,\n"[3] == '\n';
  }

  // ---------------------------------------------------------------------
  // parse_cli_into_dict

  datatype CliError =
    | UnknownFlag(at: nat)        // a token starting with `-` that is no known flag
    | NotAnAssignment(at: nat)    // a bare token without `=`
    | WholeTreeNotFirst(at: nat)  // `--from-file=` or `--from-py-fn=` after the first token
    | MalformedJson(at: nat)      // JSONDecodeError
    | BadName(at: nat)            // a function name without exactly one `:`
    | LoadFailed(at: nat)         // the file or the function could not be loaded
    | NotADict(at: nat)           // a whole tree that is not a dict

  /**
   * The foreign code a token may reach: `json.loads` (None when it raises),
   * opening and reading a YAML file, and importing, calling and converting a
   * function named by module and attribute chain.
   */
  datatype Env = Env(
    loads: string -> Option<Value>,
    readYaml: string -> Option<Value>,
    callFn: (string, seq<string>) -> Option<Value>)

  /** `to_dict(deserialize_class_or_function(name)())`. */
  function LoadFn(env: Env, name: string, idx: nat): Result<Value, CliError>
  {
    match Serialize.SplitName(name)
    case Err(_) => Err(BadName(idx))
    case Ok(n) =>
      match env.callFn(n.moduleName, n.attrs)
      case None => Err(LoadFailed(idx))
      case Some(v) => Ok(v)
  }

  /** Replacing the whole tree: only a dict is accepted. */
  function WholeTree(r: Result<Value, CliError>, idx: nat): Result<seq<Field>, CliError>
  {
    match r
    case Err(e) => Err(e)
    case Ok(d) => if d.Obj? then Ok(d.fields) else Err(NotADict(idx))
  }

  /** The text after a token's first `=`. */
  function AfterEquals(arg: string): string
  {
    EqualsKeyAndValue(arg).1
  }

  /** The six flags a token may start with. */
  predicate KnownFlag(arg: string)
  {
    || StartsWith(arg, "--set=")
    || StartsWith(arg, "--set-json=")
    || StartsWith(arg, "--set-from-file=")
    || StartsWith(arg, "--set-from-py-fn=")
    || StartsWith(arg, "--from-file=")
    || StartsWith(arg, "--from-py-fn=")
  }

  /** One turn of the loop of `parse_cli_into_dict`, on token arg at index idx. */
  function Step(env: Env, out: seq<Field>, arg: string, idx: nat): Result<seq<Field>, CliError>
  {
    if StartsWith(arg, "--set=") then
      match AssignFromKeyvalue(env.loads, out, AfterEquals(arg))
      case None => Err(MalformedJson(idx))
      case Some(o) => Ok(o)
    else if StartsWith(arg, "--set-json=") then
      var (path, text) := EqualsKeyAndValue(AfterEquals(arg));
      match env.loads(text)
      case None => Err(MalformedJson(idx))
      case Some(v) => Ok(AssignFromDotlist(out, path, v))
    else if StartsWith(arg, "--set-from-file=") then
      var (path, file) := EqualsKeyAndValue(AfterEquals(arg));
      match env.readYaml(file)
      case None => Err(LoadFailed(idx))
      case Some(v) => Ok(AssignFromDotlist(out, path, v))
    else if StartsWith(arg, "--set-from-py-fn=") then
      var (path, name) := EqualsKeyAndValue(AfterEquals(arg));
      match LoadFn(env, name, idx)
      case Err(e) => Err(e)
      case Ok(v) => Ok(AssignFromDotlist(out, path, v))
    else if StartsWith(arg, "--from-file=") then
      if idx != 0 then Err(WholeTreeNotFirst(idx))
      else
        var r := match env.readYaml(AfterEquals(arg)) case None => Err(LoadFailed(idx)) case Some(d) => Ok(d);
        WholeTree(r, idx)
    else if StartsWith(arg, "--from-py-fn=") then
      if idx != 0 then Err(WholeTreeNotFirst(idx))
      else WholeTree(LoadFn(env, AfterEquals(arg), idx), idx)
    else if StartsWith(arg, "-") then Err(UnknownFlag(idx))
    else if '=' !in arg then Err(NotAnAssignment(idx))
    else
      match AssignFromKeyvalue(env.loads, out, arg)
      case None => Err(MalformedJson(idx))
      case Some(o) => Ok(o)
  }

  /** The tokens args, the first of which has index idx, folded into out from left to right. */
  function Run(env: Env, out: seq<Field>, args: seq<string>, idx: nat): Result<seq<Field>, CliError>
    decreases |args|, 1
  {
    if args == [] then Ok(out) else Next(env, out, args, idx)
  }

  /** One turn of the loop: handle the first token, then go on with the rest. */
  function Next(env: Env, out: seq<Field>, args: seq<string>, idx: nat): Result<seq<Field>, CliError>
    requires args != []
    decreases |args|, 0
  {
    match Step(env, out, args[0], idx)
    case Err(e) => Err(e)
    case Ok(o) => Run(env, o, args[1..], idx + 1)
  }

  /** `parse_cli_into_dict` as a value: the fold from the empty dict. */
  function Parse(env: Env, args: seq<string>): Result<seq<Field>, CliError>
  {
    Run(env, [], args, 0)
  }

  /** `parse_cli_into_dict`: the loop over the tokens, updating or replacing `out`. */
  method ParseCliIntoDict(env: Env, args: seq<string>) returns (r: Result<seq<Field>, CliError>)
    ensures r == Parse(env, args)
  {
    var out: seq<Field> := [];
    var i := 0;
    assert args[0..] == args;
    while i < |args|
      invariant 0 <= i <= |args|
      invariant Run(env, out, args[i..], i) == Parse(env, args)
    {
      assert args[i..][1..] == args[i + 1..];
      match Step(env, out, args[i], i)
      case Err(e) =>
        return Err(e);
      case Ok(o) =>
        out := o;
      i := i + 1;
    }
    return Ok(out);
  }

  /** Proof helper (sequence algebra), stated apart so the proofs that use it stay small. */
  lemma AppendEmpty(a: seq<string>, b: seq<string>)
    requires a == []
    ensures a + b == b
  {
  }

  /** Proof helper (sequence algebra), stated apart so the proofs that use it stay small. */
  lemma AppendTail(a: seq<string>, b: seq<string>)
    requires a != []
    ensures a + b != [] && (a + b)[0] == a[0] && (a + b)[1..] == a[1..] + b
  {
  }

  /** The fold runs strictly left to right: a split list of tokens runs as its two halves in turn. */
  lemma {:induction false} RunAppend(env: Env, out: seq<Field>, a: seq<string>, b: seq<string>, idx: nat)
    ensures Run(env, out, a + b, idx)
         == match Run(env, out, a, idx)
            case Err(e) => Err(e)
            case Ok(o) => Run(env, o, b, idx + |a|)
    decreases |a|
  {
    if a == [] {
      AppendEmpty(a, b);
    } else {
      AppendTail(a, b);
      match Step(env, out, a[0], idx)
      case Err(e) =>
      case Ok(o) =>
        RunAppend(env, o, a[1..], b, idx + 1);
    }
  }

  /** A function given by name either loads, or fails to parse its name or to load. */
  lemma LoadFnErrors(env: Env, name: string, idx: nat)
    ensures LoadFn(env, name, idx).Err? ==>
      LoadFn(env, name, idx).error == BadName(idx) || LoadFn(env, name, idx).error == LoadFailed(idx)
  {
  }

  /** The four `--set...` flags fail only on bad JSON, a bad function name or a failed load. */
  lemma StepSetErrors(env: Env, out: seq<Field>, arg: string, idx: nat)
    requires StartsWith(arg, "--set") && KnownFlag(arg)
    ensures Step(env, out, arg, idx).Err? ==>
      Step(env, out, arg, idx).error in {MalformedJson(idx), BadName(idx), LoadFailed(idx)}
  {
    assert arg[2] == 's' by {
      assert arg[..5][2] == 's';
    }
    MismatchAt(arg, "--from-file=", 2);
    MismatchAt(arg, "--from-py-fn=", 2);
    var text := AfterEquals(arg);
    if !StartsWith(arg, "--set=") && !StartsWith(arg, "--set-json=") && !StartsWith(arg, "--set-from-file=") {
      LoadFnErrors(env, EqualsKeyAndValue(text).1, idx);
    }
  }

  /** A whole-tree flag fails when it is not first, or when its load fails or is no dict. */
  lemma StepFromErrors(env: Env, out: seq<Field>, arg: string, idx: nat)
    requires StartsWith(arg, "--from-file=") || StartsWith(arg, "--from-py-fn=")
    ensures idx != 0 <==> Step(env, out, arg, idx) == Err(WholeTreeNotFirst(idx))
    ensures idx == 0 && Step(env, out, arg, idx).Err? ==> Step(env, out, arg, idx).error in {BadName(idx), LoadFailed(idx), NotADict(idx)}
  {
    assert arg[2] == 'f' by {
      if StartsWith(arg, "--from-file=") {
        StartsWithPrefix(arg, "--from-file=", "--f");
      } else {
        StartsWithPrefix(arg, "--from-py-fn=", "--f");
      }
      assert arg[..3][2] == 'f';
    }
    MismatchAt(arg, "--set=", 2);
    MismatchAt(arg, "--set-json=", 2);
    MismatchAt(arg, "--set-from-file=", 2);
    MismatchAt(arg, "--set-from-py-fn=", 2);
    if idx == 0 && !StartsWith(arg, "--from-file=") {
      LoadFnErrors(env, AfterEquals(arg), idx);
    }
  }

  /** A token's error kind depends on the token and its index alone. */
  lemma StepErrors(env: Env, out: seq<Field>, arg: string, idx: nat)
    ensures Step(env, out, arg, idx) == Err(UnknownFlag(idx)) <==> StartsWith(arg, "-") && !KnownFlag(arg)
    ensures Step(env, out, arg, idx) == Err(NotAnAssignment(idx)) <==> !StartsWith(arg, "-") && '=' !in arg
    ensures Step(env, out, arg, idx) == Err(WholeTreeNotFirst(idx)) <==>
      idx != 0 && (StartsWith(arg, "--from-file=") || StartsWith(arg, "--from-py-fn=")) && KnownFlag(arg)
  {
    var from := StartsWith(arg, "--from-file=") || StartsWith(arg, "--from-py-fn=");
    if KnownFlag(arg) {
      if from {
        assert StartsWith(arg, "-") by {
          if StartsWith(arg, "--from-file=") {
            StartsWithPrefix(arg, "--from-file=", "-");
          } else {
            StartsWithPrefix(arg, "--from-py-fn=", "-");
          }
        }
        StepFromErrors(env, out, arg, idx);
      } else {
        assert StartsWith(arg, "--set") by {
          if StartsWith(arg, "--set=") {
            StartsWithPrefix(arg, "--set=", "--set");
          } else if StartsWith(arg, "--set-json=") {
            StartsWithPrefix(arg, "--set-json=", "--set");
          } else if StartsWith(arg, "--set-from-file=") {
            StartsWithPrefix(arg, "--set-from-file=", "--set");
          } else {
            StartsWithPrefix(arg, "--set-from-py-fn=", "--set");
          }
        }
        StartsWithPrefix(arg, "--set", "-");
        StepSetErrors(env, out, arg, idx);
      }
    }
  }

  /**
   * Once the tokens before index i have been folded, a bad token at i is the
   * error of the whole parse: an unknown flag, a bare word without `=`, or a
   * whole-tree load after the first token.
   */
  lemma ParseRejects(env: Env, args: seq<string>, i: nat)
    requires i < |args| && Parse(env, args[..i]).Ok?
    ensures StartsWith(args[i], "-") && !KnownFlag(args[i]) ==> Parse(env, args) == Err(UnknownFlag(i))
    ensures !StartsWith(args[i], "-") && '=' !in args[i] ==> Parse(env, args) == Err(NotAnAssignment(i))
    ensures i != 0 && (StartsWith(args[i], "--from-file=") || StartsWith(args[i], "--from-py-fn=")) ==>
      Parse(env, args) == Err(WholeTreeNotFirst(i))
  {
    assert args == args[..i] + args[i..];
    RunAppend(env, [], args[..i], args[i..], 0);
    var o := Parse(env, args[..i]).value;
    assert args[i..][0] == args[i];
    StepErrors(env, o, args[i], i);
  }

  /** A `--set=path=text` token, where text is JSON for v, assigns v at the path. */
  lemma SetToken(env: Env, out: seq<Field>, path: string, text: string, v: Value, idx: nat)
    requires '=' !in path && env.loads(text) == Some(v)
    ensures Step(env, out, "--set=" + path + "=" + text, idx) == Ok(AssignFromDotlist(out, path, v))
  {
    var arg := "--set=" + path + "=" + text;
    assert arg == "--set" + "=" + (path + "=" + text);
    EqualsKeyAndValueOf("--set", path + "=" + text);
    EqualsKeyAndValueOf(path, text);
    assert arg[..6] == "--set=";
  }

  /** The last of several `--set` tokens for one path decides its value. */
  lemma LaterSetWins(env: Env, pre: seq<string>, path: string, text: string, v: Value)
    requires '=' !in path && env.loads(text) == Some(v) && Parse(env, pre).Ok?
    ensures Parse(env, pre + ["--set=" + path + "=" + text]).Ok?
    ensures GetPath(Obj(Parse(env, pre + ["--set=" + path + "=" + text]).value), Split(path, '.')) == Some(v)
  {
    var o := Parse(env, pre).value;
    var t := "--set=" + path + "=" + text;
    RunAppend(env, [], pre, [t], 0);
    SetToken(env, o, path, text, v, |pre|);
    assert Run(env, o, [t], |pre|) == Next(env, o, [t], |pre|) == Ok(AssignFromDotlist(o, path, v));
    SplitCount(path, '.');
    AssignPathReaches(o, Split(path, '.'), v);
  }

  lemma ExampleSplits()
    ensures Split("a.b", '.') == ["a", "b"]
    ensures Split("b.c", '.') == ["b", "c"]
    ensures Split("a.b.c", '.') == ["a", "b", "c"]
  {
    SplitNoSep("b", '.');
    SplitNoSep("c", '.');
    assert "a.b" == "a" + ['.'] + "b";
    SplitAfterFirst("a", '.', "b");
    assert "b.c" == "b" + ['.'] + "c";
    SplitAfterFirst("b", '.', "c");
    assert "a.b.c" == "a" + ['.'] + "b.c";
    SplitAfterFirst("a", '.', "b.c");
  }

  lemma ExampleTokens(env: Env)
    requires env.loads("2") == Some(Int(2)) && env.loads("3") == Some(Int(3)) && env.loads("4") == Some(Int(4))
    ensures forall out, idx :: Step(env, out, "--set=a.b=2", idx) == Ok(AssignFromDotlist(out, "a.b", Int(2)))
    ensures forall out, idx :: Step(env, out, "--set=b.c=3", idx) == Ok(AssignFromDotlist(out, "b.c", Int(3)))
    ensures forall out, idx :: Step(env, out, "--set=a.b.c=4", idx) == Ok(AssignFromDotlist(out, "a.b.c", Int(4)))
  {
    assert "--set=a.b=2" == "--set=" + "a.b" + "=" + "2";
    assert "--set=b.c=3" == "--set=" + "b.c" + "=" + "3";
    assert "--set=a.b.c=4" == "--set=" + "a.b.c" + "=" + "4";
    forall out, idx: nat ensures Step(env, out, "--set=a.b=2", idx) == Ok(AssignFromDotlist(out, "a.b", Int(2))) {
      SetToken(env, out, "a.b", "2", Int(2), idx);
    }
    forall out, idx: nat ensures Step(env, out, "--set=b.c=3", idx) == Ok(AssignFromDotlist(out, "b.c", Int(3))) {
      SetToken(env, out, "b.c", "3", Int(3), idx);
    }
    forall out, idx: nat ensures Step(env, out, "--set=a.b.c=4", idx) == Ok(AssignFromDotlist(out, "a.b.c", Int(4))) {
      SetToken(env, out, "a.b.c", "4", Int(4), idx);
    }
  }

  lemma ExampleAssignments()
    ensures AssignPath([], ["a", "b"], Int(2)) == [Field("a", Obj([Field("b", Int(2))]))]
    ensures AssignPath([Field("a", Obj([Field("b", Int(2))]))], ["b", "c"], Int(3))
         == [Field("a", Obj([Field("b", Int(2))])), Field("b", Obj([Field("c", Int(3))]))]
    ensures AssignPath([Field("a", Obj([Field("b", Int(2))])), Field("b", Obj([Field("c", Int(3))]))], ["a", "b", "c"], Int(4))
         == [Field("a", Obj([Field("b", Obj([Field("c", Int(4))]))])), Field("b", Obj([Field("c", Int(3))]))]
  {
    var o1 := [Field("a", Obj([Field("b", Int(2))]))];
    var o2 := o1 + [Field("b", Obj([Field("c", Int(3))]))];
    assert Child(o1, "b") == [];
    assert AssignPath(o1, ["b", "c"], Int(3)) == SetKey(o1, "b", Obj([Field("c", Int(3))]));
    assert o2[0].key == "a" && Keys(o2)[0] == "a";
    assert Child(o2, "a") == [Field("b", Int(2))];
    assert Child([Field("b", Int(2))], "b") == [];
    assert AssignPath([Field("b", Int(2))], ["b", "c"], Int(4)) == [Field("b", Obj([Field("c", Int(4))]))];
  }

  /** `["--set=a.b=2", "--set=b.c=3", "--set=a.b.c=4"]` gives `{a: {b: {c: 4}}, b: {c: 3}}`. */
  lemma SetExample(env: Env)
    requires env.loads("2") == Some(Int(2)) && env.loads("3") == Some(Int(3)) && env.loads("4") == Some(Int(4))
    ensures Parse(env, ["--set=a.b=2", "--set=b.c=3", "--set=a.b.c=4"])
         == Ok([Field("a", Obj([Field("b", Obj([Field("c", Int(4))]))])), Field("b", Obj([Field("c", Int(3))]))])
  {
    var args := ["--set=a.b=2", "--set=b.c=3", "--set=a.b.c=4"];
    ExampleSplits();
    ExampleTokens(env);
    ExampleAssignments();
    assert args[1..] == ["--set=b.c=3", "--set=a.b.c=4"];
    assert args[1..][1..] == ["--set=a.b.c=4"];
  }

  /** The loads, the files and the functions all give trees whose dicts have distinct keys. */
  ghost predicate EnvWellFormed(env: Env)
  {
    && (forall s :: env.loads(s).Some? ==> WellFormed(env.loads(s).value))
    && (forall s :: env.readYaml(s).Some? ==> WellFormed(env.readYaml(s).value))
    && (forall m, a :: env.callFn(m, a).Some? ==> WellFormed(env.callFn(m, a).value))
  }

  lemma DotlistWellFormed(out: seq<Field>, path: string, v: Value)
    requires WellFormed(Obj(out)) && WellFormed(v)
    ensures WellFormed(Obj(AssignFromDotlist(out, path, v)))
  {
    SplitCount(path, '.');
    AssignPathWellFormed(out, Split(path, '.'), v);
  }

  lemma KeyvalueWellFormed(loads: string -> Option<Value>, out: seq<Field>, kv: string)
    requires forall s :: loads(s).Some? ==> WellFormed(loads(s).value)
    requires WellFormed(Obj(out))
    ensures AssignFromKeyvalue(loads, out, kv).Some? ==> WellFormed(Obj(AssignFromKeyvalue(loads, out, kv).value))
  {
    var (path, text) := EqualsKeyAndValue(kv);
    match KeyvalueValue(loads, text)
    case None =>
    case Some(v) => DotlistWellFormed(out, path, v);
  }

  lemma StepWellFormed(env: Env, out: seq<Field>, arg: string, idx: nat)
    requires EnvWellFormed(env) && WellFormed(Obj(out))
    ensures Step(env, out, arg, idx).Ok? ==> WellFormed(Obj(Step(env, out, arg, idx).value))
  {
    var (path, text) := EqualsKeyAndValue(AfterEquals(arg));
    if StartsWith(arg, "--set=") {
      KeyvalueWellFormed(env.loads, out, AfterEquals(arg));
    } else if StartsWith(arg, "--set-json=") {
      if env.loads(text).Some? {
        DotlistWellFormed(out, path, env.loads(text).value);
      }
    } else if StartsWith(arg, "--set-from-file=") {
      if env.readYaml(text).Some? {
        DotlistWellFormed(out, path, env.readYaml(text).value);
      }
    } else if StartsWith(arg, "--set-from-py-fn=") {
      if LoadFn(env, text, idx).Ok? {
        DotlistWellFormed(out, path, LoadFn(env, text, idx).value);
      }
    } else if StartsWith(arg, "--from-file=") || StartsWith(arg, "--from-py-fn=") {
    } else if !StartsWith(arg, "-") && '=' in arg {
      KeyvalueWellFormed(env.loads, out, arg);
    }
  }

  /** A parse that succeeds gives a dict tree whose dicts all have distinct keys. */
  lemma {:induction false} RunWellFormed(env: Env, out: seq<Field>, args: seq<string>, idx: nat)
    requires EnvWellFormed(env) && WellFormed(Obj(out))
    ensures Run(env, out, args, idx).Ok? ==> WellFormed(Obj(Run(env, out, args, idx).value))
    decreases |args|
  {
    if args != [] {
      StepWellFormed(env, out, args[0], idx);
      match Step(env, out, args[0], idx)
      case Err(_) =>
      case Ok(o) => RunWellFormed(env, o, args[1..], idx + 1);
    }
  }

  lemma ParseWellFormed(env: Env, args: seq<string>)
    requires EnvWellFormed(env)
    ensures Parse(env, args).Ok? ==> WellFormed(Obj(Parse(env, args).value))
  {
    RunWellFormed(env, [], args, 0);
  }

  // ---------------------------------------------------------------------
  // _obj_as_dot_updates and obj_to_cli

  /** One `k1.k2...=json` assignment printed by obj_to_cli; the leaf is kept as a value. */
  datatype DotUpdate = DotUpdate(keys: seq<string>, leaf: Value)

  /** A dict none of whose keys holds a `.`: the only kind obj_to_cli descends into. */
  predicate Expanded(v: Value)
  {
    v.Obj? && forall i :: 0 <= i < |v.fields| ==> '.' !in v.fields[i].key
  }

  /** The Atom wrapper is dropped before a leaf is printed. */
  function Unwrap(v: Value): Value
  {
    if v.Atom? then v.obj else v
  }

  /** `_obj_as_dot_updates`: one update per leaf, in the dicts' field order. */
  function DotUpdates(v: Value): seq<DotUpdate>
    decreases v
  {
    if Expanded(v) then FieldUpdates(v.fields) else [DotUpdate([], Unwrap(v))]
  }

  /** The updates of the fields of an expanded dict, each path led by its field's key. */
  function FieldUpdates(f: seq<Field>): (r: seq<DotUpdate>)
    ensures forall i :: 0 <= i < |r| ==> r[i].keys != [] && r[i].keys[0] in Keys(f)
    decreases f
  {
    if f == [] then []
    else
      var head := Prefixed(f[0].key, DotUpdates(f[0].val));
      var rest := FieldUpdates(f[1..]);
      assert forall i :: 0 <= i < |rest| ==> rest[i].keys[0] in Keys(f) by {
        KeysCons(f);
      }
      head + rest
  }

  /** `([k] + ls, v) for (ls, v) in ...`: every path gains k in front. */
  function Prefixed(k: string, us: seq<DotUpdate>): (r: seq<DotUpdate>)
    ensures |r| == |us|
    ensures forall i :: 0 <= i < |r| ==> r[i].keys != [] && r[i].keys[0] == k && r[i].keys[1..] == us[i].keys && r[i].leaf == us[i].leaf
  {
    seq(|us|, i requires 0 <= i < |us| => DotUpdate([k] + us[i].keys, us[i].leaf))
  }

  /** The command-line token `'.'.join(keys) + '=' + json.dumps(leaf)`. */
  function Token(dumps: Value -> string, u: DotUpdate): string
  {
    Join(u.keys, '.') + "=" + dumps(u.leaf)
  }

  function Tokens(dumps: Value -> string, us: seq<DotUpdate>): seq<string>
  {
    seq(|us|, i requires 0 <= i < |us| => Token(dumps, us[i]))
  }

  /** `obj_to_cli`, with `json.dumps` given as a parameter. */
  function ObjToCli(dumps: Value -> string, v: Value): seq<string>
  {
    Tokens(dumps, DotUpdates(v))
  }

  /**
   * Every update names a place in the tree: its path leads through dicts to a
   * value obj_to_cli does not descend into, and its leaf is that value unwrapped.
   */
  lemma {:induction false} DotUpdatesPoint(v: Value, i: nat)
    requires WellFormed(v) && i < |DotUpdates(v)|
    ensures GetPath(v, DotUpdates(v)[i].keys).Some?
    ensures !Expanded(GetPath(v, DotUpdates(v)[i].keys).value)
    ensures DotUpdates(v)[i].leaf == Unwrap(GetPath(v, DotUpdates(v)[i].keys).value)
    decreases v
  {
    if Expanded(v) {
      FieldUpdatesPoint(v.fields, i);
    }
  }

  /** The rest of a well-formed dict is a well-formed dict. */
  lemma WellFormedTail(f: seq<Field>)
    requires WellFormed(Obj(f)) && f != []
    ensures WellFormed(Obj(f[1..]))
  {
    DistinctTail(f);
    forall j | 0 <= j < |f[1..]| ensures WellFormed(f[1..][j].val) {
      assert f[1..][j] == f[j + 1];
    }
  }

  /** A path that leads somewhere in the rest of a dict whose first key differs leads to the same place in the dict. */
  lemma GetPathTail(f: seq<Field>, keys: seq<string>)
    requires f != [] && keys != [] && keys[0] != f[0].key
    ensures GetPath(Obj(f[1..]), keys).Some? ==> GetPath(Obj(f), keys) == GetPath(Obj(f[1..]), keys)
  {
    var k := keys[0];
    GetAppend([f[0]], f[1..], k);
    assert [f[0]] + f[1..] == f;
    assert Keys([f[0]]) == [f[0].key];
  }

  lemma {:induction false} FieldUpdatesPoint(f: seq<Field>, i: nat)
    requires WellFormed(Obj(f)) && i < |FieldUpdates(f)|
    ensures GetPath(Obj(f), FieldUpdates(f)[i].keys).Some?
    ensures !Expanded(GetPath(Obj(f), FieldUpdates(f)[i].keys).value)
    ensures FieldUpdates(f)[i].leaf == Unwrap(GetPath(Obj(f), FieldUpdates(f)[i].keys).value)
    decreases f
  {
    var head := Prefixed(f[0].key, DotUpdates(f[0].val));
    var u := FieldUpdates(f)[i];
    FirstKeyPresent(f);
    GetAt(f, 0);
    if i < |head| {
      assert u == head[i];
      DotUpdatesPoint(f[0].val, i);
    } else {
      var rest := FieldUpdates(f[1..]);
      assert u == rest[i - |head|];
      WellFormedTail(f);
      DistinctTail(f);
      FieldUpdatesPoint(f[1..], i - |head|);
      GetPathTail(f, u.keys);
    }
  }

  /** A `{}` below the top has no leaves, so it is printed as nothing at all. */
  lemma EmptyDictDropped(dumps: Value -> string)
    ensures ObjToCli(dumps, Obj([Field("a", Obj([]))])) == []
  {
    assert Expanded(Obj([Field("a", Obj([]))]));
    assert Expanded(Obj([]));
  }

  // ---------------------------------------------------------------------
  // Reading the printed tokens back

  /**
   * The trees obj_to_cli can print faithfully below the top: a dict it
   * descends into is not empty, has distinct keys and no `=` in a key, and holds
   * printable values; anything else is printed whole and must be plain JSON.
   */
  ghost predicate Printable(v: Value)
    decreases v
  {
    if Expanded(v) then
      && v.fields != []
      && DistinctKeys(v.fields)
      && forall i :: 0 <= i < |v.fields| ==> '=' !in v.fields[i].key && Printable(v.fields[i].val)
    else JsonValue(v)
  }

  /** At the top, in addition, no key starts with `-`, which would read as a flag. */
  ghost predicate PrintableTop(f: seq<Field>)
  {
    && Expanded(Obj(f))
    && DistinctKeys(f)
    && forall i :: 0 <= i < |f| ==> '=' !in f[i].key && !StartsWith(f[i].key, "-") && Printable(f[i].val)
  }

  /** A path of keys without `.` or `=`, led by a key that does not start with `-`. */
  ghost predicate CleanUpdate(u: DotUpdate)
  {
    && u.keys != []
    && !StartsWith(u.keys[0], "-")
    && JsonValue(u.leaf)
    && forall j :: 0 <= j < |u.keys| ==> '.' !in u.keys[j] && '=' !in u.keys[j]
  }

  ghost predicate CleanKeys(us: seq<DotUpdate>)
  {
    forall i, j :: 0 <= i < |us| && 0 <= j < |us[i].keys| ==> '.' !in us[i].keys[j] && '=' !in us[i].keys[j]
  }

  ghost predicate JsonLeaves(us: seq<DotUpdate>)
  {
    forall i :: 0 <= i < |us| ==> JsonValue(us[i].leaf)
  }

  lemma {:induction false} DotUpdatesClean(v: Value)
    requires Printable(v)
    ensures CleanKeys(DotUpdates(v)) && JsonLeaves(DotUpdates(v))
    decreases v
  {
    if Expanded(v) {
      FieldUpdatesClean(v.fields);
    }
  }

  lemma {:induction false} FieldUpdatesClean(f: seq<Field>)
    requires forall i :: 0 <= i < |f| ==> '.' !in f[i].key && '=' !in f[i].key && Printable(f[i].val)
    ensures CleanKeys(FieldUpdates(f)) && JsonLeaves(FieldUpdates(f))
    decreases f
  {
    if f != [] {
      var head := Prefixed(f[0].key, DotUpdates(f[0].val));
      var rest := FieldUpdates(f[1..]);
      DotUpdatesClean(f[0].val);
      FieldUpdatesClean(f[1..]);
      forall i, j | 0 <= i < |head| && 0 <= j < |head[i].keys| ensures '.' !in head[i].keys[j] && '=' !in head[i].keys[j] {
        if j > 0 {
          assert head[i].keys[j] == DotUpdates(f[0].val)[i].keys[j - 1];
        }
      }
      CleanAppend(head, rest);
    }
  }

  lemma CleanAppend(a: seq<DotUpdate>, b: seq<DotUpdate>)
    requires CleanKeys(a) && CleanKeys(b) && JsonLeaves(a) && JsonLeaves(b)
    ensures CleanKeys(a + b) && JsonLeaves(a + b)
  {
    forall i | 0 <= i < |a + b| ensures (a + b)[i] == if i < |a| then a[i] else b[i - |a|] {
    }
  }

  /** A printable expanded tree yields at least one token. */
  lemma {:induction false} DotUpdatesNonEmpty(v: Value)
    requires Printable(v)
    ensures DotUpdates(v) != []
    decreases v
  {
    if Expanded(v) {
      DotUpdatesNonEmpty(v.fields[0].val);
    }
  }

  /** None of the six flags begins with anything but `-`. */
  lemma NotAFlag(t: string)
    requires t != [] && t[0] != '-'
    ensures !StartsWith(t, "-") && !KnownFlag(t)
  {
    MismatchAt(t, "-", 0);
    MismatchAt(t, "--set=", 0);
    MismatchAt(t, "--set-json=", 0);
    MismatchAt(t, "--set-from-file=", 0);
    MismatchAt(t, "--set-from-py-fn=", 0);
    MismatchAt(t, "--from-file=", 0);
    MismatchAt(t, "--from-py-fn=", 0);
  }

  /**
   * A clean token is read by the plain `path=json` branch of the parser, and
   * it writes its leaf at its path.
   */
  lemma TokenStep(env: Env, dumps: Value -> string, out: seq<Field>, u: DotUpdate, idx: nat)
    requires CleanUpdate(u) && env.loads(dumps(u.leaf)) == Some(u.leaf)
    ensures Step(env, out, Token(dumps, u), idx) == Ok(AssignPath(out, u.keys, u.leaf))
  {
    var p := Join(u.keys, '.');
    var text := dumps(u.leaf);
    var t := Token(dumps, u);
    JoinKeepsOut(u.keys, '.', '=');
    assert t[|p|] == '=';
    if u.keys[0] != "" {
      JoinFirstChar(u.keys, '.');
      assert u.keys[0][..1] != "-";
      assert t[0] == u.keys[0][0];
    } else if |u.keys| > 1 {
      assert p[0] == '.';
    }
    NotAFlag(t);
    EqualsKeyAndValueOf(p, text);
    SplitJoin(u.keys, '.');
  }

  /** Folding the parser's assignments over a list of updates. */
  function ApplyUpdates(acc: seq<Field>, us: seq<DotUpdate>): seq<Field>
    requires forall i :: 0 <= i < |us| ==> us[i].keys != []
    decreases |us|
  {
    if us == [] then acc else ApplyUpdates(AssignPath(acc, us[0].keys, us[0].leaf), us[1..])
  }

  /** Parsing printed tokens replays their assignments in order. */
  lemma {:induction false} RunTokens(env: Env, dumps: Value -> string, out: seq<Field>, us: seq<DotUpdate>, idx: nat)
    requires forall v :: JsonValue(v) ==> env.loads(dumps(v)) == Some(v)
    requires forall i :: 0 <= i < |us| ==> us[i].keys != [] && CleanUpdate(us[i])
    ensures Run(env, out, Tokens(dumps, us), idx) == Ok(ApplyUpdates(out, us))
    decreases |us|
  {
    if us != [] {
      TokenStep(env, dumps, out, us[0], idx);
      assert Tokens(dumps, us)[1..] == Tokens(dumps, us[1..]);
      RunTokens(env, dumps, AssignPath(out, us[0].keys, us[0].leaf), us[1..], idx + 1);
    }
  }

  lemma {:induction false} ApplyAppend(acc: seq<Field>, a: seq<DotUpdate>, b: seq<DotUpdate>)
    requires forall i :: 0 <= i < |a| ==> a[i].keys != []
    requires forall i :: 0 <= i < |b| ==> b[i].keys != []
    ensures ApplyUpdates(acc, a + b) == ApplyUpdates(ApplyUpdates(acc, a), b)
    decreases |a|
  {
    if a == [] {
      assert a + b == b;
    } else {
      assert (a + b)[1..] == a[1..] + b;
      ApplyAppend(AssignPath(acc, a[0].keys, a[0].leaf), a[1..], b);
    }
  }

  /** Updates under key k, the last key of the dict, rebuild the dict under k. */
  lemma {:induction false} ApplyPrefixed(pre: seq<Field>, k: string, c: seq<Field>, us: seq<DotUpdate>)
    requires !HasKey(pre, k)
    requires forall i :: 0 <= i < |us| ==> us[i].keys != []
    ensures ApplyUpdates(pre + [Field(k, Obj(c))], Prefixed(k, us)) == pre + [Field(k, Obj(ApplyUpdates(c, us)))]
    decreases |us|
  {
    if us != [] {
      var u := us[0];
      var c' := AssignPath(c, u.keys, u.leaf);
      SetKeyLast(pre, k, Obj(c), Obj(c'));
      assert Prefixed(k, us)[1..] == Prefixed(k, us[1..]);
      ApplyPrefixed(pre, k, c', us[1..]);
    }
  }

  /** The updates of a printable value, under a new key k, append exactly `k: value`. */
  lemma {:induction false} ApplyValue(acc: seq<Field>, k: string, v: Value)
    requires !HasKey(acc, k) && Printable(v)
    ensures ApplyUpdates(acc, Prefixed(k, DotUpdates(v))) == acc + [Field(k, v)]
    decreases v, 2
  {
    if Expanded(v) {
      var us := FieldUpdates(v.fields);
      var p := Prefixed(k, us);
      DotUpdatesNonEmpty(v);
      var u := us[0];
      var w := Obj(AssignPath([], u.keys, u.leaf));
      SetKeyNew(acc, k, w);
      SetKeyLast(acc, k, Obj([]), w);
      assert AssignPath(acc, p[0].keys, u.leaf) == AssignPath(acc + [Field(k, Obj([]))], p[0].keys, u.leaf);
      ApplyPrefixed(acc, k, [], us);
      ApplyFields([], v.fields);
      assert [] + v.fields == v.fields;
    } else {
      SetKeyNew(acc, k, v);
    }
  }

  lemma FreshAfterHead(acc: seq<Field>, f: seq<Field>)
    requires f != [] && DistinctKeys(f) && forall k :: HasKey(f, k) ==> !HasKey(acc, k)
    ensures forall k :: HasKey(f[1..], k) ==> !HasKey(acc + [f[0]], k)
  {
    DistinctTail(f);
    KeysCons(f);
    forall k | HasKey(f[1..], k) ensures !HasKey(acc + [f[0]], k) {
      GetAppend(acc, [f[0]], k);
      assert Keys([f[0]]) == [f[0].key];
    }
  }

  /** The updates of the first field of a printable dict, after acc, append that field. */
  lemma ApplyFieldsHead(acc: seq<Field>, f: seq<Field>)
    requires f != [] && !HasKey(acc, f[0].key) && Printable(f[0].val)
    ensures ApplyUpdates(acc, Prefixed(f[0].key, DotUpdates(f[0].val))) == acc + [f[0]]
    decreases f, 0
  {
    ApplyValue(acc, f[0].key, f[0].val);
  }

  /** The rest of a printable dict is printable and fresh after acc and the first field. */
  lemma ApplyFieldsTail(acc: seq<Field>, f: seq<Field>)
    requires f != [] && DistinctKeys(f) && forall k :: HasKey(f, k) ==> !HasKey(acc, k)
    requires forall i :: 0 <= i < |f| ==> Printable(f[i].val)
    ensures DistinctKeys(f[1..]) && forall k :: HasKey(f[1..], k) ==> !HasKey(acc + [f[0]], k)
    ensures forall i :: 0 <= i < |f[1..]| ==> Printable(f[1..][i].val)
  {
    FreshAfterHead(acc, f);
    DistinctTail(f);
    forall i | 0 <= i < |f[1..]| ensures Printable(f[1..][i].val) {
      assert f[1..][i] == f[i + 1];
    }
  }

  /** The updates of a non-empty dict: those of its first field, then those of the rest. */
  lemma FieldUpdatesSplit(f: seq<Field>)
    requires f != []
    ensures FieldUpdates(f) == Prefixed(f[0].key, DotUpdates(f[0].val)) + FieldUpdates(f[1..])
  {
  }

  /** Proof helper (sequence algebra), stated apart so the proofs that use it stay small. */
  lemma AppendCons(acc: seq<Field>, f: seq<Field>)
    requires f != []
    ensures acc + [f[0]] + f[1..] == acc + f
  {
    assert [f[0]] + f[1..] == f;
  }

  /** The first field's updates, then the rest's, append the whole dict. */
  lemma ApplyFieldsCons(acc: seq<Field>, f: seq<Field>)
    requires f != []
    requires ApplyUpdates(acc, Prefixed(f[0].key, DotUpdates(f[0].val))) == acc + [f[0]]
    requires ApplyUpdates(acc + [f[0]], FieldUpdates(f[1..])) == acc + [f[0]] + f[1..]
    ensures ApplyUpdates(acc, FieldUpdates(f)) == acc + f
  {
    FieldUpdatesSplit(f);
    ApplyAppend(acc, Prefixed(f[0].key, DotUpdates(f[0].val)), FieldUpdates(f[1..]));
    AppendCons(acc, f);
  }

  /** The updates of the fields of a printable dict, applied after acc, append those fields. */
  lemma {:induction false} ApplyFields(acc: seq<Field>, f: seq<Field>)
    requires DistinctKeys(f) && forall k :: HasKey(f, k) ==> !HasKey(acc, k)
    requires forall i :: 0 <= i < |f| ==> Printable(f[i].val)
    ensures ApplyUpdates(acc, FieldUpdates(f)) == acc + f
    decreases f, 1
  {
    if f != [] {
      FirstKeyPresent(f);
      ApplyFieldsHead(acc, f);
      ApplyFieldsTail(acc, f);
      ApplyFields(acc + [f[0]], f[1..]);
      ApplyFieldsCons(acc, f);
    }
  }

  /**
   * Reading back what obj_to_cli prints gives the dict printed, whenever
   * `json.loads` inverts `json.dumps` and the tree is printable.
   */
  lemma ObjToCliRoundTrip(env: Env, dumps: Value -> string, f: seq<Field>)
    requires forall v :: JsonValue(v) ==> env.loads(dumps(v)) == Some(v)
    requires PrintableTop(f)
    ensures Parse(env, ObjToCli(dumps, Obj(f))) == Ok(f)
  {
    var us := FieldUpdates(f);
    FieldUpdatesClean(f);
    forall i | 0 <= i < |us| ensures CleanUpdate(us[i]) {
      var j := HasKeyAt(f, us[i].keys[0]);
    }
    RunTokens(env, dumps, [], us, 0);
    ApplyFields([], f);
    assert [] + f == f;
  }

  /**
   * A top-level value obj_to_cli does not descend into is printed as `=json`,
   * which the parser reads as the value under the empty key.
   */
  lemma ObjToCliWholeValue(env: Env, dumps: Value -> string, v: Value)
    requires !Expanded(v) && env.loads(dumps(Unwrap(v))) == Some(Unwrap(v))
    ensures Parse(env, ObjToCli(dumps, v)) == Ok([Field("", Unwrap(v))])
  {
    var t := Token(dumps, DotUpdate([], Unwrap(v)));
    assert t == "" + "=" + dumps(Unwrap(v));
    assert t[0] == '=';
    NotAFlag(t);
    EqualsKeyAndValueOf("", dumps(Unwrap(v)));
    assert Split("", '.') == [""];
    assert '=' in t;
    assert DotUpdates(v) == [DotUpdate([], Unwrap(v))];
    assert ObjToCli(dumps, v) == [t];
    assert Step(env, [], t, 0) == Ok([Field("", Unwrap(v))]);
    assert [t][1..] == [];
    assert Run(env, [], [t], 0) == Next(env, [], [t], 0) == Run(env, [Field("", Unwrap(v))], [], 1);
  }

  /**
   * The updates of a tree: one per leaf in key order, a list as one leaf, an
   * Atom unwrapped, and a dict with a dotted key as one leaf.
   */
  lemma DotUpdatesExample()
    ensures DotUpdates(Obj([
              Field("d", Obj([Field("e", Bool(true)), Field("f", Null)])),
              Field("k", Arr([Int(2), Str("no")])),
              Field("x", Atom(Obj([Field("y", Int(1))]))),
              Field("p", Obj([Field("q.r", Int(3))]))]))
         == [DotUpdate(["d", "e"], Bool(true)),
             DotUpdate(["d", "f"], Null),
             DotUpdate(["k"], Arr([Int(2), Str("no")])),
             DotUpdate(["x"], Obj([Field("y", Int(1))])),
             DotUpdate(["p"], Obj([Field("q.r", Int(3))]))]
  {
    var dd := Obj([Field("e", Bool(true)), Field("f", Null)]);
    var f2 := [Field("k", Arr([Int(2), Str("no")])), Field("x", Atom(Obj([Field("y", Int(1))]))), Field("p", Obj([Field("q.r", Int(3))]))];
    NestedExample();
    LeavesExample();
    FieldUpdatesCons(Field("d", dd), f2);
    assert Expanded(Obj([Field("d", dd)] + f2));
  }

  lemma LeavesExample()
    ensures FieldUpdates([Field("k", Arr([Int(2), Str("no")])), Field("x", Atom(Obj([Field("y", Int(1))]))), Field("p", Obj([Field("q.r", Int(3))]))])
         == [DotUpdate(["k"], Arr([Int(2), Str("no")])), DotUpdate(["x"], Obj([Field("y", Int(1))])), DotUpdate(["p"], Obj([Field("q.r", Int(3))]))]
  {
    var lst := Arr([Int(2), Str("no")]);
    var y := Obj([Field("y", Int(1))]);
    var q := Obj([Field("q.r", Int(3))]);
    assert !Expanded(q) by {
      assert q.fields[0].key[1] == '.';
    }
    LeafPrefixed("k", lst);
    LeafPrefixed("x", Atom(y));
    LeafPrefixed("p", q);
    var f4 := [Field("p", q)];
    var f3 := [Field("x", Atom(y))] + f4;
    FieldUpdatesCons(Field("p", q), []);
    FieldUpdatesCons(Field("x", Atom(y)), f4);
    FieldUpdatesCons(Field("k", lst), f3);
  }

  lemma NestedFields()
    ensures FieldUpdates([Field("e", Bool(true)), Field("f", Null)])
         == [DotUpdate(["e"], Bool(true)), DotUpdate(["f"], Null)]
  {
    LeafPrefixed("e", Bool(true));
    LeafPrefixed("f", Null);
    FieldUpdatesCons(Field("f", Null), []);
    FieldUpdatesCons(Field("e", Bool(true)), [Field("f", Null)]);
    assert [Field("e", Bool(true))] + [Field("f", Null)] == [Field("e", Bool(true)), Field("f", Null)];
    assert [Field("f", Null)] + [] == [Field("f", Null)];
  }

  lemma NestedExample()
    ensures Prefixed("d", DotUpdates(Obj([Field("e", Bool(true)), Field("f", Null)])))
         == [DotUpdate(["d", "e"], Bool(true)), DotUpdate(["d", "f"], Null)]
  {
    var d := [Field("e", Bool(true)), Field("f", Null)];
    NestedFields();
    assert Expanded(Obj(d));
    var pd := Prefixed("d", FieldUpdates(d));
    assert |pd| == 2;
    assert pd[0] == DotUpdate(["d", "e"], Bool(true)) by {
      assert ["d"] + ["e"] == ["d", "e"];
    }
    assert pd[1] == DotUpdate(["d", "f"], Null) by {
      assert ["d"] + ["f"] == ["d", "f"];
    }
  }

  lemma FieldUpdatesCons(fd: Field, rest: seq<Field>)
    ensures FieldUpdates([fd] + rest) == Prefixed(fd.key, DotUpdates(fd.val)) + FieldUpdates(rest)
  {
    assert ([fd] + rest)[1..] == rest;
  }

  lemma LeafPrefixed(k: string, v: Value)
    requires !Expanded(v)
    ensures Prefixed(k, DotUpdates(v)) == [DotUpdate([k], Unwrap(v))]
  {
    assert [k] + [] == [k];
  }
}
