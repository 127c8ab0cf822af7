/**
 The registry key of a symbolic override. `register_symbolic` joins the
 function name, the backend name and `str(is_pytorch)` with '@';
 `set_symbolic` splits the key on '@', unpacks exactly three fields and reads
 the flag back by comparing the third field with "True".
 */
module KeyCodec {
  import opened Results

  /** The field separator of a registry key. */
  const Sep: char := '@'

  /** The three fields of a decoded key. */
  datatype KeyFields = KeyFields(funcName: string, backend: string, isPytorch: bool)

  /** Stands for the ValueError raised when a split key does not unpack into
      three fields. The key and the field count it carries are the model's
      own: Python's message names neither the key nor, for too many fields,
      the count. */
  datatype KeyError = UnpackError(key: string, fieldCount: nat)

  /** Number of occurrences of `c` in `s`. */
  function Count(s: string, c: char): nat
  {
    multiset(s)[c]
  }

  /** Python's `s.split(sep)` for a one-character separator: never empty,
      and no field holds the separator. */
  function Split(s: string, sep: char): (parts: seq<string>)
    ensures |parts| >= 1
    ensures forall i :: 0 <= i < |parts| ==> sep !in parts[i]
  {
    if |s| == 0 then [""]
    else
      var rest := Split(s[1..], sep);
      if s[0] == sep then [""] + rest
      else [[s[0]] + rest[0]] + rest[1..]
  }

  /** Python's `sep.join(parts)`. */
  function Join(parts: seq<string>, sep: char): string
  {
    if |parts| == 0 then ""
    else if |parts| == 1 then parts[0]
    else parts[0] + [sep] + Join(parts[1..], sep)
  }

  /** Joining the fields of a split gives back the original string. */
  lemma {:induction false} JoinSplit(s: string, sep: char)
    ensures Join(Split(s, sep), sep) == s
  {
    if |s| > 0 {
      var rest := Split(s[1..], sep);
      JoinSplit(s[1..], sep);
      if s[0] == sep {
        assert Split(s, sep) == [""] + rest;
        assert ([""] + rest)[1..] == rest;
        assert Join(Split(s, sep), sep) == "" + [sep] + Join(rest, sep);
        assert s == [s[0]] + s[1..];
      } else {
        var parts := Split(s, sep);
        assert parts == [[s[0]] + rest[0]] + rest[1..];
        if |rest| == 1 {
          assert Join(parts, sep) == [s[0]] + rest[0];
          assert Join(rest, sep) == rest[0];
        } else {
          assert parts[1..] == rest[1..];
          assert Join(parts, sep) == [s[0]] + rest[0] + [sep] + Join(rest[1..], sep);
          assert Join(rest, sep) == rest[0] + [sep] + Join(rest[1..], sep);
        }
        assert s == [s[0]] + s[1..];
      }
    }
  }

  /** A string without the separator splits into itself alone. */
  lemma {:induction false} SplitNoSep(x: string, sep: char)
    requires sep !in x
    ensures Split(x, sep) == [x]
  {
    if |x| > 0 {
      SplitNoSep(x[1..], sep);
      assert [x[0]] + x[1..] == x;
    }
  }

  /** A separator-free prefix glues onto the first field of the rest. */
  lemma {:induction false} SplitPrefix(x: string, y: string, sep: char)
    requires sep !in x
    ensures Split(x + y, sep) == [x + Split(y, sep)[0]] + Split(y, sep)[1..]
  {
    if |x| == 0 {
      assert x + y == y;
      var ys := Split(y, sep);
      assert x + ys[0] == ys[0];
      assert [ys[0]] + ys[1..] == ys;
    } else {
      var xy := x + y;
      assert xy[0] == x[0];
      assert xy[1..] == x[1..] + y;
      SplitPrefix(x[1..], y, sep);
      assert [x[0]] + (x[1..] + Split(y, sep)[0]) == x + Split(y, sep)[0];
    }
  }

  /** Splitting a join of separator-free fields gives back the fields. */
  lemma {:induction false} SplitJoin(parts: seq<string>, sep: char)
    requires |parts| >= 1
    requires forall i :: 0 <= i < |parts| ==> sep !in parts[i]
    ensures Split(Join(parts, sep), sep) == parts
  {
    if |parts| == 1 {
      SplitNoSep(parts[0], sep);
    } else {
      var tail := Join(parts[1..], sep);
      SplitJoin(parts[1..], sep);
      var z := [sep] + tail;
      assert Join(parts, sep) == parts[0] + z;
      SplitPrefix(parts[0], z, sep);
      assert z[0] == sep && z[1..] == tail;
      assert Split(z, sep) == [""] + parts[1..];
      assert parts[0] + "" == parts[0];
      assert ([""] + parts[1..])[1..] == parts[1..];
      assert parts == [parts[0]] + parts[1..];
    }
  }

  /** A split has one more field than the string has separators. */
  lemma {:induction false} SplitCount(s: string, sep: char)
    ensures |Split(s, sep)| == Count(s, sep) + 1
  {
    if |s| > 0 {
      SplitCount(s[1..], sep);
      assert s == [s[0]] + s[1..];
      assert multiset(s) == multiset([s[0]]) + multiset(s[1..]);
    }
  }

  /** Python's `str(b)` for a boolean. */
  function BoolStr(b: bool): string
  {
    if b then "True" else "False"
  }

  /** The registry key built by `register_symbolic`. */
  function EncodeKey(funcName: string, backend: string, isPytorch: bool): string
  {
    Join([funcName, backend, BoolStr(isPytorch)], Sep)
  }

  /** Unpacking of a registry key in `set_symbolic`: exactly two separators
      are accepted, any other count raises the unpacking error. */
  function DecodeKey(key: string): (r: Result<KeyFields, KeyError>)
    ensures r.Ok? <==> Count(key, Sep) == 2
    ensures r.Ok? ==> Sep !in r.value.funcName && Sep !in r.value.backend
    ensures r.Err? ==> r.error == UnpackError(key, Count(key, Sep) + 1)
  {
    SplitCount(key, Sep);
    var parts := Split(key, Sep);
    if |parts| != 3 then Err(UnpackError(key, |parts|))
    else Ok(KeyFields(parts[0], parts[1], parts[2] == "True"))
  }

  /** Any three separator-free fields decode back, the flag being true
      exactly when the third field is the string "True". */
  lemma DecodeJoined(funcName: string, backend: string, flag: string)
    requires Sep !in funcName && Sep !in backend && Sep !in flag
    ensures DecodeKey(Join([funcName, backend, flag], Sep))
            == Ok(KeyFields(funcName, backend, flag == "True"))
  {
    var parts := [funcName, backend, flag];
    SplitJoin(parts, Sep);
  }

  /** The join of three fields, written out. */
  lemma JoinThree(a: string, b: string, c: string, sep: char)
    ensures Join([a, b, c], sep) == a + [sep] + (b + [sep] + c)
  {
    assert [a, b, c][1..] == [b, c];
    assert [b, c][1..] == [c];
    assert Join([c], sep) == c;
    assert Join([b, c], sep) == b + [sep] + c;
    assert Join([a, b, c], sep) == a + [sep] + Join([b, c], sep);
  }

  /** Key round trip: decoding an encoded key recovers every field. */
  lemma KeyRoundTrip(funcName: string, backend: string, isPytorch: bool)
    requires Sep !in funcName && Sep !in backend
    ensures DecodeKey(EncodeKey(funcName, backend, isPytorch))
            == Ok(KeyFields(funcName, backend, isPytorch))
  {
    assert Sep !in BoolStr(isPytorch);
    DecodeJoined(funcName, backend, BoolStr(isPytorch));
  }

  /** A function or backend name holding '@' yields a key that cannot be
      decoded: it has more than three fields. */
  lemma KeyWithSeparatorRejected(funcName: string, backend: string, isPytorch: bool)
    requires Sep in funcName || Sep in backend
    ensures DecodeKey(EncodeKey(funcName, backend, isPytorch)).Err?
    ensures DecodeKey(EncodeKey(funcName, backend, isPytorch)).error.fieldCount > 3
  {
    var key := EncodeKey(funcName, backend, isPytorch);
    var t := BoolStr(isPytorch);
    JoinThree(funcName, backend, t, Sep);
    assert multiset(key)[Sep] == multiset(funcName)[Sep] + 1 + multiset(backend)[Sep] + 1 + multiset(t)[Sep];
    assert Sep in multiset(funcName) || Sep in multiset(backend);
  }

  /** Every decodable key is the join of its decoded name and backend with
      its third field. */
  lemma DecodedKeyShape(key: string)
    requires DecodeKey(key).Ok?
    ensures var k := DecodeKey(key).value;
            key == Join([k.funcName, k.backend, Split(key, Sep)[2]], Sep)
  {
    var parts := Split(key, Sep);
    SplitCount(key, Sep);
    JoinSplit(key, Sep);
    assert parts == [parts[0], parts[1], parts[2]];
  }

  /** Re-encoding a decoded key reproduces it exactly when its third field
      is "True" or "False"; any other spelling is read as false. */
  lemma ReencodeDecoded(key: string)
    requires DecodeKey(key).Ok?
    ensures var k := DecodeKey(key).value;
            EncodeKey(k.funcName, k.backend, k.isPytorch) == key
            <==> Split(key, Sep)[2] in {"True", "False"}
  {
    var k := DecodeKey(key).value;
    var t := Split(key, Sep)[2];
    DecodedKeyShape(key);
    SplitCount(key, Sep);
    if EncodeKey(k.funcName, k.backend, k.isPytorch) == key {
      assert Sep !in BoolStr(k.isPytorch);
      SplitJoin([k.funcName, k.backend, BoolStr(k.isPytorch)], Sep);
      assert t == BoolStr(k.isPytorch);
    } else {
      assert t != BoolStr(k.isPytorch);
      assert k.isPytorch == (t == "True");
    }
  }
}
