/**
 * The relation files index.txt, owners.txt and passwords.txt: one
 * `"<id> <value>\n"` line per entry, read by loadMapFromFile (store.go:47-64)
 * and written by saveToFile (store.go:66-78).
 */
module LineFormat {
  import opened Wrappers
  import opened Text

  /**
   * One line: the key is the text before the first space, the value all the
   * rest (spaces included); a line with no space or an empty key is skipped.
   */
  function ParseLine(line: string): (r: Option<(string, string)>)
    ensures r.Some? <==> ' ' in line && line[0] != ' '
    ensures r.Some? ==> r.value.0 != "" && ' ' !in r.value.0 && r.value.0 + " " + r.value.1 == line
  {
    var parts := SplitN2(line, ' ');
    if |parts| == 2 && parts[0] != "" then Some((parts[0], parts[1])) else None
  }

  /** The map built from a sequence of lines: each good line overwrites its key. */
  function ParseLines(lines: seq<string>): map<string, string>
  {
    if lines == [] then map[]
    else
      var m := ParseLines(lines[..|lines| - 1]);
      match ParseLine(lines[|lines| - 1])
      case Some((k, v)) => m[k := v]
      case None => m
  }

  /** What loadMapFromFile builds from a file's text: well formed whatever the text. */
  function Parse(text: string): (m: map<string, string>)
    ensures WellFormed(m)
  {
    ParseLinesWellFormed(Split(text, '\n'));
    ParseLines(Split(text, '\n'))
  }

  /**
   * loadMapFromFile (store.go:47-64): a missing file is the empty map;
   * otherwise every line of the text in turn. (A read error other than
   * "does not exist" panics in the server; `file` is `None` only for a
   * missing file.)
   */
  method LoadMapFromFile(file: Option<string>) returns (result: map<string, string>)
    ensures file.None? ==> result == map[]
    ensures file.Some? ==> result == Parse(file.value)
  {
    result := map[];
    if file.None? {
      return;
    }
    var lines := Split(file.value, '\n');
    var i := 0;
    while i < |lines|
      invariant 0 <= i <= |lines|
      invariant result == ParseLines(lines[..i])
    {
      var line := lines[i];
      assert lines[..i + 1][..i] == lines[..i];
      var parts := SplitN2(line, ' ');
      if |parts| == 2 && parts[0] != "" {
        result := result[parts[0] := parts[1]];
      }
      i := i + 1;
    }
    assert lines[..|lines|] == lines;
  }

  /** Parsing a concatenation of line sequences: later lines override earlier ones. */
  lemma {:induction false} ParseLinesAppend(a: seq<string>, b: seq<string>)
    ensures ParseLines(a + b) == ParseLines(a) + ParseLines(b)
    decreases |b|
  {
    if b == [] {
      assert a + b == a;
    } else {
      var n := |b|;
      assert (a + b)[..|a + b| - 1] == a + b[..n - 1];
      assert (a + b)[|a + b| - 1] == b[n - 1];
      ParseLinesAppend(a, b[..n - 1]);
    }
  }

  /** Text after a newline overrides text before it, key by key. */
  lemma ParseAppend(x: string, y: string)
    ensures Parse(x + "\n" + y) == Parse(x) + Parse(y)
  {
    SplitAppend(x, y, '\n');
    ParseLinesAppend(Split(x, '\n'), Split(y, '\n'));
  }

  /** The empty text (and so a missing file) holds no entries. */
  lemma ParseEmpty()
    ensures Parse("") == map[]
  {
    assert Split("", '\n') == [""];
  }

  /** The keys of a relation file are never empty and never hold a space or newline; values hold no newline. */
  predicate WellFormed(m: map<string, string>)
  {
    forall k :: k in m ==> k != "" && ' ' !in k && '\n' !in k && '\n' !in m[k]
  }

  /** Whatever the text, what is loaded is well formed. */
  lemma {:induction false} ParseLinesWellFormed(lines: seq<string>)
    requires forall j :: 0 <= j < |lines| ==> '\n' !in lines[j]
    ensures WellFormed(ParseLines(lines))
  {
    if lines != [] {
      var last := lines[|lines| - 1];
      ParseLinesWellFormed(lines[..|lines| - 1]);
      match ParseLine(last)
      case Some((k, v)) =>
        assert last == k + " " + v;
        assert forall c :: c in k ==> c in last;
        assert forall c :: c in v ==> c in last;
      case None =>
    }
  }

  /** The line saveToFile writes for one entry, without its newline. */
  function EntryLine(k: string, v: string): string
  {
    k + " " + v
  }

  /** What saveToFile writes when it visits the keys in the given order. */
  function Render(m: map<string, string>, keys: seq<string>): string
    requires forall j :: 0 <= j < |keys| ==> keys[j] in m
  {
    if keys == [] then ""
    else
      var k := keys[|keys| - 1];
      Render(m, keys[..|keys| - 1]) + EntryLine(k, m[k]) + "\n"
  }

  /** Rendering one more key appends its line. */
  lemma RenderSnoc(m: map<string, string>, keys: seq<string>, k: string)
    requires forall j :: 0 <= j < |keys| ==> keys[j] in m
    requires k in m
    ensures Render(m, keys + [k]) == Render(m, keys) + EntryLine(k, m[k]) + "\n"
  {
    assert (keys + [k])[..|keys|] == keys;
  }

  /** `order` lists every key of `keys` exactly once (Go's map iteration order is unspecified). */
  ghost predicate IsEnumeration(order: seq<string>, keys: set<string>)
  {
    && (forall j :: 0 <= j < |order| ==> order[j] in keys)
    && (forall k :: k in keys ==> k in order)
    && (forall i, j :: 0 <= i < j < |order| ==> order[i] != order[j])
  }

  /** `text` is what saveToFile writes for `m`, in some iteration order. */
  ghost predicate Saved(text: string, m: map<string, string>)
  {
    exists order :: IsEnumeration(order, m.Keys) && text == Render(m, order)
  }

  /**
   * saveToFile (store.go:66-78), without the write: visits the entries in an
   * unspecified order (returned as `order`) and appends one line per entry.
   */
  method SaveToText(data: map<string, string>) returns (text: string, order: seq<string>)
    ensures IsEnumeration(order, data.Keys)
    ensures text == Render(data, order)
  {
    text, order := "", [];
    var remaining := data.Keys;
    while remaining != {}
      invariant remaining <= data.Keys
      invariant forall j :: 0 <= j < |order| ==> order[j] in data.Keys && order[j] !in remaining
      invariant forall k :: k in data.Keys ==> k in remaining || k in order
      invariant forall i, j :: 0 <= i < j < |order| ==> order[i] != order[j]
      invariant text == Render(data, order)
      decreases |remaining|
    {
      var id :| id in remaining;
      RenderSnoc(data, order, id);
      text := text + EntryLine(id, data[id]) + "\n";
      order := order + [id];
      remaining := remaining - {id};
    }
  }

  /** The first space of an entry line is the one after its key. */
  lemma SplitEntry(k: string, v: string)
    requires ' ' !in k
    ensures SplitN2(EntryLine(k, v), ' ') == [k, v]
  {
    var line := EntryLine(k, v);
    FindAppend(k, " " + v, ' ');
    assert Find(k, ' ') == |k| by {
      assert forall j :: 0 <= j < |k| ==> k[j] != ' ';
    }
    assert line == k + (" " + v);
    assert line[..|k|] == k && line[|k| + 1..] == v;
  }

  /** A line whose key has no space parses to exactly that entry. */
  lemma ParseEntryLine(k: string, v: string)
    requires k != "" && ' ' !in k && '\n' !in k && '\n' !in v
    ensures ParseLine(EntryLine(k, v)) == Some((k, v))
    ensures Parse(EntryLine(k, v)) == map[k := v]
  {
    var line := EntryLine(k, v);
    SplitEntry(k, v);
    assert '\n' !in line by {
      assert forall c :: c in line ==> c in k || c == ' ' || c in v;
    }
    SplitNoSep(line, '\n');
    assert ParseLine(line) == Some((k, v));
    assert [line][..0] == [];
    assert ParseLines([line]) == map[][k := v];
  }

  /** The entries of `m` at the keys listed in `keys`. */
  ghost function Restrict(m: map<string, string>, keys: seq<string>): map<string, string>
  {
    map k | k in m && k in keys :: m[k]
  }

  /** Listing one more key adds that entry. */
  lemma RestrictSnoc(m: map<string, string>, keys: seq<string>)
    requires |keys| > 0 && keys[|keys| - 1] in m
    ensures var k := keys[|keys| - 1]; Restrict(m, keys) == Restrict(m, keys[..|keys| - 1]) + map[k := m[k]]
  {
    var init, k := keys[..|keys| - 1], keys[|keys| - 1];
    var a, b := Restrict(m, keys), Restrict(m, init) + map[k := m[k]];
    forall x ensures x in a <==> x in b {
      assert x in keys <==> x in init || x == k by {
        assert keys == init + [k];
      }
    }
    forall x | x in a ensures a[x] == b[x] {
    }
  }

  lemma MapUnionAssoc(a: map<string, string>, b: map<string, string>, c: map<string, string>)
    ensures (a + b) + c == a + (b + c)
  {
  }

  /** The last rendered entry is a line of its own in front of what follows. */
  lemma RenderLast(m: map<string, string>, keys: seq<string>, rest: string)
    requires forall j :: 0 <= j < |keys| ==> keys[j] in m
    requires |keys| > 0
    ensures var k := keys[|keys| - 1];
      Render(m, keys) + rest == Render(m, keys[..|keys| - 1]) + (EntryLine(k, m[k]) + "\n" + rest)
  {
  }

  /** An entry line in front of more text adds its entry, which the rest may override. */
  lemma ParseEntryThen(k: string, v: string, rest: string)
    requires k != "" && ' ' !in k && '\n' !in k && '\n' !in v
    ensures Parse(EntryLine(k, v) + "\n" + rest) == map[k := v] + Parse(rest)
  {
    ParseAppend(EntryLine(k, v), rest);
    ParseEntryLine(k, v);
  }

  /** Reading back a rendering followed by more text: the rendered entries, overridden by the rest. */
  lemma {:induction false} ParseRender(m: map<string, string>, keys: seq<string>, rest: string)
    requires WellFormed(m)
    requires forall j :: 0 <= j < |keys| ==> keys[j] in m
    ensures Parse(Render(m, keys) + rest) == Restrict(m, keys) + Parse(rest)
    decreases |keys|
  {
    if keys == [] {
      assert Render(m, keys) + rest == rest;
      assert Restrict(m, keys) == map[];
    } else {
      var n := |keys|;
      var init, k := keys[..n - 1], keys[n - 1];
      var tail := EntryLine(k, m[k]) + "\n" + rest;
      RenderLast(m, keys, rest);
      assert k in m;
      ParseEntryThen(k, m[k], rest);
      ParseRender(m, init, tail);
      RestrictSnoc(m, keys);
      MapUnionAssoc(Restrict(m, init), map[k := m[k]], Parse(rest));
    }
  }

  /** Listing every key keeps the whole map. */
  lemma RestrictAll(m: map<string, string>, order: seq<string>)
    requires IsEnumeration(order, m.Keys)
    ensures Restrict(m, order) == m
  {
  }

  /**
   * Round trip: loading what saveToFile wrote gives the map back, whatever
   * the iteration order, as long as keys are non-empty and free of spaces
   * and newlines and values free of newlines.
   */
  lemma SavedRoundTrip(text: string, m: map<string, string>)
    requires Saved(text, m) && WellFormed(m)
    ensures Parse(text) == m
  {
    var order :| IsEnumeration(order, m.Keys) && text == Render(m, order);
    assert Parse(text) == Restrict(m, order) + Parse("") by {
      ParseRender(m, order, "");
      assert text + "" == text;
    }
    assert Parse("") == map[] by {
      ParseEmpty();
    }
    RestrictAll(m, order);
  }

  /**
   * A value holding a newline does not survive the round trip: the text
   * after the newline is read back as an entry of its own.
   */
  lemma NewlineInValueIsLost(k: string, x: string, y: string, z: string)
    requires k != "" && ' ' !in k && '\n' !in k && '\n' !in x
    requires y != "" && ' ' !in y && '\n' !in y && '\n' !in z
    ensures var m := map[k := x + "\n" + y + " " + z];
      Parse(Render(m, [k])) == map[k := x] + map[y := z]
  {
    var m := map[k := x + "\n" + y + " " + z];
    var second := EntryLine(y, z) + "\n" + "";
    assert Parse(second) == map[y := z] by {
      ParseEntryThen(y, z, "");
      ParseEmpty();
    }
    ParseEntryThen(k, x, second);
    assert Render(m, [k]) == EntryLine(k, x) + "\n" + second by {
      assert [k][..0] == [];
      assert Render(m, [k]) == Render(m, []) + EntryLine(k, m[k]) + "\n";
    }
  }
}
