/** `parse_header` of `cgi.py`: splits a Content-Type-like header value into
    its primary value and a parameter dictionary. The parameter syntax loosely
    follows section 5.1 of RFC 2045: tokens are not checked, and quoted
    strings are not recognised, so a `;` inside quotes still splits. */
module Header {
  import opened Text

  /** Position of the first `c` in `s`. */
  function IndexOf(s: string, c: char): (i: nat)
    requires c in s
    ensures i < |s| && s[i] == c && c !in s[..i]
  {
    if s[0] == c then 0
    else
      assert s == [s[0]] + s[1..];
      1 + IndexOf(s[1..], c)
  }

  /** The header split at every `;`, each part stripped. */
  function Parts(line: string): seq<string>
  {
    var pieces := SplitOn(line, ";");
    seq(|pieces|, k requires 0 <= k < |pieces| => Strip(pieces[k]))
  }

  /** A part that contributes a parameter: non-empty and holding an `=`. */
  predicate IsParam(part: string)
  {
    part != "" && '=' in part
  }

  /** The key of a parameter part: the text before its first `=`, stripped
      and lower-cased. */
  function KeyOf(part: string): string
    requires '=' in part
  {
    Lower(Strip(part[..IndexOf(part, '=')]))
  }

  predicate IsDoubleQuote(c: char)
  {
    c == '"'
  }

  predicate IsSingleQuote(c: char)
  {
    c == '\''
  }

  /** `val.strip().strip('"').strip("'")`. */
  function Unquote(val: string): string
  {
    Trim(Trim(Strip(val), IsDoubleQuote), IsSingleQuote)
  }

  /** The value of a parameter part: the text after its first `=`, unquoted. */
  function ValueOf(part: string): string
    requires '=' in part
  {
    Unquote(part[IndexOf(part, '=') + 1..])
  }

  /** The `(key, value)` pair of every parameter part, in order. */
  function Entries(parts: seq<string>): (es: seq<(string, string)>)
    ensures |es| <= |parts|
  {
    if parts == [] then []
    else
      var last := parts[|parts| - 1];
      Entries(parts[..|parts| - 1]) + if IsParam(last) then [(KeyOf(last), ValueOf(last))] else []
  }

  /** A dictionary filled with `entries` in order, a later key overwriting an
      earlier one. */
  function Assign<K, V>(entries: seq<(K, V)>): map<K, V>
  {
    if entries == [] then map[]
    else
      var (k, v) := entries[|entries| - 1];
      Assign(entries[..|entries| - 1])[k := v]
  }

  /** The parameter dictionary of a header's parts. */
  function Params(parts: seq<string>): map<string, string>
  {
    Assign(Entries(parts))
  }

  /** Adding an entry at the end sets its key and nothing else. */
  lemma AssignSnoc<K, V>(entries: seq<(K, V)>, k: K, v: V)
    ensures Assign(entries + [(k, v)]) == Assign(entries)[k := v]
  {
    assert (entries + [(k, v)])[..|entries|] == entries;
  }

  /** Taking one more part into account updates the dictionary with that
      part only. */
  lemma ParamsStep(parts: seq<string>, i: nat)
    requires 1 <= i < |parts|
    ensures Params(parts[1..i + 1])
      == if IsParam(parts[i]) then Params(parts[1..i])[KeyOf(parts[i]) := ValueOf(parts[i])] else Params(parts[1..i])
  {
    assert parts[1..i + 1][..i - 1] == parts[1..i];
    var es := Entries(parts[1..i]);
    if IsParam(parts[i]) {
      AssignSnoc(es, KeyOf(parts[i]), ValueOf(parts[i]));
    } else {
      assert es + [] == es;
    }
  }

  /** `parse_header(line)`. */
  method ParseHeader(line: string) returns (value: string, params: map<string, string>)
    ensures line == "" ==> value == "" && params == map[]
    ensures value == Strip(SplitOn(line, ";")[0])
    ensures params == Params(Parts(line)[1..])
  {
    if line == "" {
      return "", map[];
    }
    var parts := Parts(line);
    value := parts[0];
    params := map[];
    for i := 1 to |parts|
      invariant params == Params(parts[1..i])
    {
      var param := parts[i];
      ParamsStep(parts, i);
      if param == "" || '=' !in param {
        continue;
      }
      params := params[KeyOf(param) := ValueOf(param)];
    }
    assert parts[1..|parts|] == parts[1..];
  }

  /** Nothing but the entries' keys is in the dictionary, and every one of
      them is. */
  lemma {:induction false} AssignKeys<K, V>(entries: seq<(K, V)>, k: K)
    ensures k in Assign(entries) <==> exists j :: 0 <= j < |entries| && entries[j].0 == k
  {
    if entries != [] {
      var n := |entries| - 1;
      var init := entries[..n];
      AssignKeys(init, k);
      if k in Assign(init) {
        var j :| 0 <= j < |init| && init[j].0 == k;
        assert entries[j] == init[j];
      }
      if j :| 0 <= j < n && entries[j].0 == k {
        assert init[j] == entries[j];
      }
    }
  }

  /** Last occurrence wins: a key's value comes from the last entry with that
      key. */
  lemma {:induction false} AssignLastWins<K, V>(entries: seq<(K, V)>, j: nat)
    requires j < |entries|
    requires forall l :: j < l < |entries| ==> entries[l].0 != entries[j].0
    ensures entries[j].0 in Assign(entries) && Assign(entries)[entries[j].0] == entries[j].1
  {
    var n := |entries| - 1;
    if j < n {
      var init := entries[..n];
      assert init[j] == entries[j];
      forall l | j < l < |init| ensures init[l].0 != init[j].0 {
        assert init[l] == entries[l];
      }
      AssignLastWins(init, j);
    }
  }

  /** Every value of the dictionary is the value of some entry. */
  lemma {:induction false} AssignValues<K, V>(entries: seq<(K, V)>, k: K)
    requires k in Assign(entries)
    ensures exists j :: 0 <= j < |entries| && entries[j] == (k, Assign(entries)[k])
  {
    var n := |entries| - 1;
    if entries[n].0 != k {
      var init := entries[..n];
      AssignValues(init, k);
      var j :| 0 <= j < |init| && init[j] == (k, Assign(init)[k]);
      assert entries[j] == init[j];
    }
  }

  /** The dictionary has at most one key per entry. */
  lemma {:induction false} AssignSize<K, V>(entries: seq<(K, V)>)
    ensures |Assign(entries)| <= |entries|
  {
    if entries != [] {
      var n := |entries| - 1;
      var m := Assign(entries[..n]);
      AssignSize(entries[..n]);
      assert m[entries[n].0 := entries[n].1].Keys == m.Keys + {entries[n].0};
    }
  }

  /** A parameter value keeps only characters of its part. */
  lemma ValueChars(part: string)
    requires '=' in part
    ensures forall i :: 0 <= i < |ValueOf(part)| ==> ValueOf(part)[i] in part
  {
    var v := ValueOf(part);
    var tail := part[IndexOf(part, '=') + 1..];
    forall i | 0 <= i < |v| ensures v[i] in part {
      assert v[i] in tail;
    }
  }

  /** A character that no part contains is in no entry's value. */
  lemma {:induction false} EntriesAvoid(parts: seq<string>, c: char)
    requires forall k :: 0 <= k < |parts| ==> c !in parts[k]
    ensures forall j :: 0 <= j < |Entries(parts)| ==> c !in Entries(parts)[j].1
  {
    if parts != [] {
      var n := |parts| - 1;
      var last := parts[n];
      var init := parts[..n];
      assert forall k :: 0 <= k < |init| ==> init[k] == parts[k];
      EntriesAvoid(init, c);
      if IsParam(last) {
        ValueChars(last);
      }
    }
  }

  /** A segment is split at its first `=` only, so the value may itself hold
      `=`: a key without `=` followed by `=` and any text gives that key and
      the unquoted text. */
  lemma FirstEqualsSplits(key: string, val: string)
    requires '=' !in key
    ensures IsParam(key + "=" + val)
    ensures KeyOf(key + "=" + val) == Lower(Strip(key))
    ensures ValueOf(key + "=" + val) == Unquote(val)
  {
    var part := key + "=" + val;
    assert part[|key|] == '=';
    assert part[..|key|] == key;
    var i := IndexOf(part, '=');
    assert part[..|key| + 1] == key + "=";
    assert i == |key|;
    assert part[i + 1..] == val;
  }

  /** There are at most as many parameters as `;` in the header, and neither
      the primary value nor any parameter value contains `;`. */
  lemma HeaderBounds(line: string)
    ensures |Params(Parts(line)[1..])| <= multiset(line)[';']
    ensures ';' !in Strip(SplitOn(line, ";")[0])
    ensures forall v :: v in Params(Parts(line)[1..]).Values ==> ';' !in v
  {
    var pieces := SplitOn(line, ";");
    var parts := Parts(line);
    var rest := parts[1..];
    SplitOnChar(line, ';');
    AssignSize(Entries(rest));
    assert ';' !in pieces[0];
    forall k | 0 <= k < |rest| ensures ';' !in rest[k] {
      assert ';' !in pieces[k + 1];
    }
    EntriesAvoid(rest, ';');
    forall v | v in Params(rest).Values ensures ';' !in v {
      var key :| key in Params(rest) && Params(rest)[key] == v;
      AssignValues(Entries(rest), key);
    }
  }
}
