/** The user configuration: a JSON object read from disk, queried and
    updated along a path of keys. Reading and writing the file are outside
    this model; the configuration arrives and leaves as a value. */
module UserConfig {
  import opened Wrappers
  import Strings

  /** A JSON value as `json.load` produces it (numbers restricted to integers). */
  datatype Json =
    | JNull
    | JBool(b: bool)
    | JNum(n: int)
    | JStr(s: string)
    | JArr(items: seq<Json>)
    | JObj(fields: map<string, Json>)

  /** The loaded configuration: a JSON object. */
  type Config = map<string, Json>

  /** The exceptions the two operations can raise. */
  datatype ConfigError = KeyError(key: string) | IndexError | TypeError

  // ---------------------------------------------------------------------------
  // get_value

  /** One pass of the `get_value` loop: `key in current` and then
      `current[key]`. Only an object with the key lets the walk go on. On a
      string `in` is a substring test and on a list a membership test, so
      a hit there fails at the indexing with `TypeError` and a miss fails
      with `KeyError`; on a number, boolean or null `in` itself raises
      `TypeError`. */
  function Step(current: Json, key: string): (r: Result<Json, ConfigError>)
    ensures r.Success? <==> current.JObj? && key in current.fields
    ensures r.Success? ==> r.value == current.fields[key]
    ensures r == Failure(KeyError(key)) <==>
              || (current.JObj? && key !in current.fields)
              || (current.JStr? && !Strings.Contains(current.s, key))
              || (current.JArr? && JStr(key) !in current.items)
    ensures r.Failure? ==> r.error == KeyError(key) || r.error == TypeError
  {
    match current
    case JObj(fields) => if key in fields then Success(fields[key]) else Failure(KeyError(key))
    case JStr(s) => if Strings.Contains(s, key) then Failure(TypeError) else Failure(KeyError(key))
    case JArr(items) => if JStr(key) in items then Failure(TypeError) else Failure(KeyError(key))
    case _ => Failure(TypeError)
  }

  /** The walk from `current` along `keys`, stopping at the first failing step. */
  function Walk(current: Json, keys: seq<string>): (r: Result<Json, ConfigError>)
    ensures |keys| == 0 ==> r == Success(current)
    ensures r.Failure? ==> r.error == TypeError || (r.error.KeyError? && r.error.key in keys)
    decreases |keys|
  {
    if |keys| == 0 then Success(current)
    else
      var next :- Step(current, keys[0]);
      Walk(next, keys[1..])
  }

  /** `get_value`: the value found by walking the configuration along `keys`;
      no keys give the whole configuration back. */
  function GetValue(cfg: Config, keys: seq<string>): (r: Result<Json, ConfigError>)
    ensures |keys| == 0 ==> r == Success(JObj(cfg))
    ensures r.Failure? ==> r.error == TypeError || (r.error.KeyError? && r.error.key in keys)
  {
    Walk(JObj(cfg), keys)
  }

  /** The loop's own view: one more key is one more step after the walk so far. */
  lemma {:induction false} WalkSnoc(current: Json, keys: seq<string>, key: string)
    ensures Walk(current, keys + [key]) ==
              match Walk(current, keys)
              case Failure(e) => Failure(e)
              case Success(v) => Step(v, key)
    decreases |keys|
  {
    if |keys| == 0 {
      assert [] + [key] == [key];
      assert [key][1..] == [];
    } else {
      assert (keys + [key])[0] == keys[0];
      assert (keys + [key])[1..] == keys[1..] + [key];
      var s := Step(current, keys[0]);
      if s.Success? {
        WalkSnoc(s.value, keys[1..], key);
      }
    }
  }

  /** `get_value` extended by one key is one more loop pass. */
  lemma GetValueSnoc(cfg: Config, keys: seq<string>, key: string)
    ensures GetValue(cfg, keys + [key]) ==
              match GetValue(cfg, keys)
              case Failure(e) => Failure(e)
              case Success(v) => Step(v, key)
  {
    WalkSnoc(JObj(cfg), keys, key);
  }

  /** Walking along `a + b` is walking along `a`, then along `b` from there. */
  lemma {:induction false} WalkAppend(current: Json, a: seq<string>, b: seq<string>)
    ensures Walk(current, a + b) ==
              match Walk(current, a)
              case Failure(e) => Failure(e)
              case Success(v) => Walk(v, b)
    decreases |a|
  {
    if |a| == 0 {
      assert a + b == b;
    } else {
      assert (a + b)[0] == a[0];
      assert (a + b)[1..] == a[1..] + b;
      var s := Step(current, a[0]);
      if s.Success? {
        WalkAppend(s.value, a[1..], b);
      }
    }
  }

  // ---------------------------------------------------------------------------
  // update_key

  /** The assignment at the end of `update_key`'s walk: every key but the
      last must name a nested object that is present, else `KeyError` for
      that key; the last key is then set, added or replaced. */
  function SetAt(fields: map<string, Json>, keys: seq<string>, value: Json): (r: Result<map<string, Json>, ConfigError>)
    requires |keys| > 0
    ensures r.Success? ==> keys[0] in r.value
    ensures r.Success? ==> r.value.Keys == fields.Keys + {keys[0]}
    ensures r.Failure? ==> r.error.KeyError? && r.error.key in keys[..|keys| - 1]
    decreases |keys|
  {
    var k := keys[0];
    if |keys| == 1 then Success(fields[k := value])
    else if k in fields && fields[k].JObj? then
      var inner :- SetAt(fields[k].fields, keys[1..], value);
      Success(fields[k := JObj(inner)])
    else Failure(KeyError(k))
  }

  /** `update_key` without the write to disk: no keys is `keys[-1]` on an
      empty list, an `IndexError`. */
  function UpdateKey(cfg: Config, keys: seq<string>, value: Json): (r: Result<Config, ConfigError>)
    ensures |keys| == 0 <==> r == Failure(IndexError)
    ensures r.Failure? && |keys| > 0 ==> r.error.KeyError? && r.error.key in keys[..|keys| - 1]
  {
    if |keys| == 0 then Failure(IndexError) else SetAt(cfg, keys, value)
  }

  /** There is a nested object at the end of `path`. */
  predicate ObjectAt(cfg: Config, path: seq<string>)
  {
    GetValue(cfg, path).Success? && GetValue(cfg, path).value.JObj?
  }

  /** A walk of at least one key from a value that is not an object fails. */
  lemma WalkFromNonObject(current: Json, keys: seq<string>)
    requires !current.JObj? && |keys| > 0
    ensures Walk(current, keys).Failure?
  {
  }

  /** The assignment fails exactly when the keys before the last do not
      lead to a nested object. */
  lemma {:induction false} SetAtFails(fields: map<string, Json>, keys: seq<string>, value: Json)
    requires |keys| > 0
    ensures SetAt(fields, keys, value).Success? <==> ObjectAt(fields, keys[..|keys| - 1])
    decreases |keys|
  {
    var k := keys[0];
    var prefix := keys[..|keys| - 1];
    if |keys| > 1 {
      assert prefix[0] == k;
      assert prefix[1..] == keys[1..][..|keys[1..]| - 1];
      if k in fields && fields[k].JObj? {
        SetAtFails(fields[k].fields, keys[1..], value);
        assert GetValue(fields, prefix) == Walk(fields[k], prefix[1..]);
      } else if k in fields {
        if |prefix| > 1 {
          WalkFromNonObject(fields[k], prefix[1..]);
        }
      }
    }
  }

  /** `update_key` fails exactly when there are no keys or the keys before
      the last do not lead to a nested object. */
  lemma UpdateKeyFails(cfg: Config, keys: seq<string>, value: Json)
    ensures UpdateKey(cfg, keys, value).Failure? <==> |keys| == 0 || !ObjectAt(cfg, keys[..|keys| - 1])
  {
    if |keys| > 0 {
      SetAtFails(cfg, keys, value);
    }
  }

  /** After the assignment, the walk along the keys reaches the new value. */
  lemma {:induction false} SetAtThenWalk(fields: map<string, Json>, keys: seq<string>, value: Json, rest: seq<string>)
    requires |keys| > 0 && SetAt(fields, keys, value).Success?
    ensures Walk(JObj(SetAt(fields, keys, value).value), keys + rest) == Walk(value, rest)
    decreases |keys|
  {
    var k := keys[0];
    assert (keys + rest)[0] == k;
    assert (keys + rest)[1..] == keys[1..] + rest;
    if |keys| > 1 {
      SetAtThenWalk(fields[k].fields, keys[1..], value, rest);
    } else {
      assert keys[1..] + rest == rest;
    }
  }

  /** After a successful update, walking to the updated key and beyond sees
      the new value; in particular `get_value(keys)` returns it. */
  lemma UpdateKeyThenGet(cfg: Config, keys: seq<string>, value: Json, rest: seq<string>)
    requires UpdateKey(cfg, keys, value).Success?
    ensures GetValue(UpdateKey(cfg, keys, value).value, keys + rest) == Walk(value, rest)
    ensures GetValue(UpdateKey(cfg, keys, value).value, keys) == Success(value)
  {
    SetAtThenWalk(cfg, keys, value, rest);
    SetAtThenWalk(cfg, keys, value, []);
    assert keys + [] == keys;
  }

  /** Neither path is a prefix of the other: they part at some key. */
  predicate Diverge(p: seq<string>, q: seq<string>)
  {
    !(p <= q) && !(q <= p)
  }

  /** The assignment leaves every path that parts from its own unchanged. */
  lemma {:induction false} SetAtFrame(fields: map<string, Json>, keys: seq<string>, value: Json, path: seq<string>)
    requires |keys| > 0 && SetAt(fields, keys, value).Success?
    requires Diverge(path, keys)
    ensures Walk(JObj(SetAt(fields, keys, value).value), path) == Walk(JObj(fields), path)
    decreases |keys|
  {
    var k := keys[0];
    assert |path| > 0;
    if path[0] == k {
      assert |keys| > 1;
      assert Diverge(path[1..], keys[1..]);
      SetAtFrame(fields[k].fields, keys[1..], value, path[1..]);
    }
  }

  /** An update changes nothing along a path that parts from the updated one. */
  lemma UpdateKeyFrame(cfg: Config, keys: seq<string>, value: Json, path: seq<string>)
    requires UpdateKey(cfg, keys, value).Success?
    requires Diverge(path, keys)
    ensures GetValue(UpdateKey(cfg, keys, value).value, path) == GetValue(cfg, path)
  {
    SetAtFrame(cfg, keys, value, path);
  }

  /** A second assignment along the same keys replaces the first. */
  lemma {:induction false} SetAtTwice(fields: map<string, Json>, keys: seq<string>, first: Json, second: Json)
    requires |keys| > 0 && SetAt(fields, keys, first).Success?
    ensures SetAt(SetAt(fields, keys, first).value, keys, second) == SetAt(fields, keys, second)
    decreases |keys|
  {
    var k := keys[0];
    var once := SetAt(fields, keys, first).value;
    if |keys| > 1 {
      var inner := SetAt(fields[k].fields, keys[1..], first).value;
      assert once == fields[k := JObj(inner)];
      SetAtTwice(fields[k].fields, keys[1..], first, second);
      var inner2 := SetAt(inner, keys[1..], second);
      assert inner2 == SetAt(fields[k].fields, keys[1..], second);
      if inner2.Success? {
        assert once[k := JObj(inner2.value)] == fields[k := JObj(inner2.value)];
      }
    } else {
      assert once[k := second] == fields[k := second];
    }
  }

  /** Repeating an assignment changes nothing. */
  lemma {:induction false} SetAtSame(fields: map<string, Json>, keys: seq<string>, value: Json)
    requires |keys| > 0 && SetAt(fields, keys, value).Success?
    ensures SetAt(SetAt(fields, keys, value).value, keys, value) == SetAt(fields, keys, value)
    decreases |keys|
  {
    SetAtTwice(fields, keys, value, value);
  }

  /** A second update of the same path replaces the first, and repeating an
      update changes nothing. */
  lemma UpdateKeyOverwrites(cfg: Config, keys: seq<string>, first: Json, second: Json)
    requires UpdateKey(cfg, keys, first).Success?
    ensures UpdateKey(UpdateKey(cfg, keys, first).value, keys, second) == UpdateKey(cfg, keys, second)
    ensures UpdateKey(UpdateKey(cfg, keys, first).value, keys, first) == UpdateKey(cfg, keys, first)
  {
    SetAtTwice(cfg, keys, first, second);
    SetAtTwice(cfg, keys, first, first);
  }
}
