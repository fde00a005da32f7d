/** The few pieces of Go's `strings` package the server relies on, over `seq<char>`. */
module Text {

  /** Position of the first `c` in `s`, or `|s|` when `s` has none (strings.Index with "absent" as `|s|`). */
  function Find(s: string, c: char): (r: nat)
    ensures r <= |s|
    ensures r < |s| ==> s[r] == c
    ensures forall j :: 0 <= j < r ==> s[j] != c
    decreases |s|
  {
    if s == [] then 0
    else if s[0] == c then 0
    else 1 + Find(s[1..], c)
  }

  /** Puts character `c` in front of `parts`: a separator starts a new piece, anything else joins the first one. */
  function Glue(c: char, parts: seq<string>, sep: char): (r: seq<string>)
    requires |parts| >= 1
    ensures |r| >= 1
    ensures c == sep ==> r == [""] + parts
    ensures c != sep ==> |r| == |parts| && r[0] == [c] + parts[0] && r[1..] == parts[1..]
  {
    if c == sep then [""] + parts else [[c] + parts[0]] + parts[1..]
  }

  /** Gluing onto a longer list only touches its first piece. */
  lemma GlueAppend(c: char, r: seq<string>, t: seq<string>, sep: char)
    requires |r| >= 1
    ensures Glue(c, r + t, sep) == Glue(c, r, sep) + t
  {
    if c != sep {
      assert (r + t)[1..] == r[1..] + t;
    }
  }

  /**
   * strings.Split(s, string(sep)): the pieces between separators, read one
   * character at a time; always at least one piece.
   */
  function Split(s: string, sep: char): (parts: seq<string>)
    ensures |parts| >= 1
    ensures forall k :: 0 <= k < |parts| ==> sep !in parts[k]
    decreases |s|
  {
    if s == [] then [""] else Glue(s[0], Split(s[1..], sep), sep)
  }

  /** strings.Join(parts, string(sep)). */
  function Join(parts: seq<string>, sep: char): string
  {
    if |parts| == 0 then ""
    else if |parts| == 1 then parts[0]
    else parts[0] + [sep] + Join(parts[1..], sep)
  }

  /** Joining the pieces back with the separator gives the original text. */
  lemma {:induction false} JoinSplit(s: string, sep: char)
    ensures Join(Split(s, sep), sep) == s
    decreases |s|
  {
    if s != [] {
      var rest := Split(s[1..], sep);
      JoinSplit(s[1..], sep);
      if s[0] == sep {
        assert ([""] + rest)[1..] == rest;
      } else if |rest| == 1 {
        assert s == [s[0]] + s[1..];
      } else {
        var parts := [[s[0]] + rest[0]] + rest[1..];
        assert parts[1..] == rest[1..];
        assert s == [s[0]] + s[1..];
      }
    }
  }

  /** Searching a concatenation finds the first hit in the left part, or else searches the right part. */
  lemma {:induction false} FindAppend(x: string, y: string, c: char)
    ensures Find(x + y, c) == if Find(x, c) < |x| then Find(x, c) else |x| + Find(y, c)
    decreases |x|
  {
    if x != [] {
      assert (x + y)[1..] == x[1..] + y;
      FindAppend(x[1..], y, c);
    } else {
      assert x + y == y;
    }
  }

  /** Splitting `x + sep + y` splits `x` and `y` separately. */
  lemma {:induction false} SplitAppend(x: string, y: string, sep: char)
    ensures Split(x + [sep] + y, sep) == Split(x, sep) + Split(y, sep)
    decreases |x|
  {
    var s := x + [sep] + y;
    if x == [] {
      assert s[0] == sep && s[1..] == y;
    } else {
      assert s[0] == x[0] && s[1..] == x[1..] + [sep] + y;
      SplitAppend(x[1..], y, sep);
      GlueAppend(x[0], Split(x[1..], sep), Split(y, sep), sep);
    }
  }

  /** A text without the separator is one piece. */
  lemma {:induction false} SplitNoSep(s: string, sep: char)
    requires sep !in s
    ensures Split(s, sep) == [s]
    decreases |s|
  {
    if s != [] {
      SplitNoSep(s[1..], sep);
      assert s == [s[0]] + s[1..];
    }
  }

  /**
   * strings.SplitN(s, string(sep), 2): the whole text when it has no separator,
   * otherwise the text before the first separator and everything after it.
   */
  function SplitN2(s: string, sep: char): (parts: seq<string>)
    ensures |parts| == 1 || |parts| == 2
    ensures |parts| == 2 <==> sep in s
    ensures sep !in parts[0]
    ensures |parts| == 1 ==> parts[0] == s
    ensures |parts| == 2 ==> parts[0] + [sep] + parts[1] == s
  {
    var i := Find(s, sep);
    if i == |s| then
      [s]
    else
      assert s[..i] + [sep] + s[i + 1..] == s;
      [s[..i], s[i + 1..]]
  }

  /** strings.HasPrefix. */
  predicate HasPrefix(s: string, prefix: string)
  {
    |prefix| <= |s| && s[..|prefix|] == prefix
  }

  /**
   * unicode.IsSpace: the ASCII blanks '\t', '\n', '\v', '\f', '\r', ' ', plus
   * U+0085 and U+00A0, and the Unicode White_Space characters above U+00FF.
   */
  predicate IsSpace(c: char)
  {
    c == '\t' || c == '\n' || c == '\U{B}' || c == '\U{C}' || c == '\r' || c == ' '
    || c == '\U{85}' || c == '\U{A0}' || c == '\U{1680}'
    || ('\U{2000}' <= c <= '\U{200A}')
    || c == '\U{2028}' || c == '\U{2029}' || c == '\U{202F}' || c == '\U{205F}' || c == '\U{3000}'
  }

  predicate NoSpace(s: string)
  {
    forall k :: 0 <= k < |s| ==> !IsSpace(s[k])
  }

  /** Length of the leading run of non-space characters. */
  function WordEnd(s: string): (w: nat)
    ensures w <= |s|
    ensures NoSpace(s[..w])
    ensures w < |s| ==> IsSpace(s[w])
    decreases |s|
  {
    if s == [] || IsSpace(s[0]) then 0 else 1 + WordEnd(s[1..])
  }

  /** strings.Fields: the maximal runs of non-space characters, in order. */
  function Fields(s: string): (fs: seq<string>)
    ensures forall k :: 0 <= k < |fs| ==> fs[k] != [] && NoSpace(fs[k])
    decreases |s|
  {
    if s == [] then []
    else if IsSpace(s[0]) then Fields(s[1..])
    else
      var w := WordEnd(s);
      [s[..w]] + Fields(s[w..])
  }

  /** The pieces written one after another. */
  function Concat(parts: seq<string>): string
  {
    if parts == [] then "" else parts[0] + Concat(parts[1..])
  }

  /** `s` with every space character left out. */
  function DropSpaces(s: string): (r: string)
    ensures NoSpace(r)
    ensures |r| <= |s|
    decreases |s|
  {
    if s == [] then "" else if IsSpace(s[0]) then DropSpaces(s[1..]) else [s[0]] + DropSpaces(s[1..])
  }

  /** Leaving out spaces works piece by piece. */
  lemma {:induction false} DropSpacesAppend(x: string, y: string)
    ensures DropSpaces(x + y) == DropSpaces(x) + DropSpaces(y)
    decreases |x|
  {
    if x == [] {
      assert x + y == y;
    } else {
      assert (x + y)[0] == x[0] && (x + y)[1..] == x[1..] + y;
      DropSpacesAppend(x[1..], y);
    }
  }

  /** A text without spaces loses nothing. */
  lemma {:induction false} DropSpacesNoSpace(s: string)
    requires NoSpace(s)
    ensures DropSpaces(s) == s
    decreases |s|
  {
    if s != [] {
      DropSpacesNoSpace(s[1..]);
      assert s == [s[0]] + s[1..];
    }
  }

  /** The fields, written one after another, are the text with its spaces left out: no character is lost, none is added and the order is kept. */
  lemma {:induction false} FieldsConcat(s: string)
    ensures Concat(Fields(s)) == DropSpaces(s)
    decreases |s|
  {
    if s != [] {
      if IsSpace(s[0]) {
        FieldsConcat(s[1..]);
      } else {
        var w := WordEnd(s);
        assert w >= 1;
        var fs := [s[..w]] + Fields(s[w..]);
        assert fs[0] == s[..w] && fs[1..] == Fields(s[w..]);
        FieldsConcat(s[w..]);
        assert s == s[..w] + s[w..];
        DropSpacesAppend(s[..w], s[w..]);
        DropSpacesNoSpace(s[..w]);
      }
    }
  }

  /** A word followed by nothing or by a space ends where the word does. */
  lemma {:induction false} WordEndOfWord(w: string, r: string)
    requires NoSpace(w)
    requires r == [] || IsSpace(r[0])
    ensures WordEnd(w + r) == |w|
    decreases |w|
  {
    if w == [] {
      assert w + r == r;
    } else {
      assert (w + r)[0] == w[0] && (w + r)[1..] == w[1..] + r;
      WordEndOfWord(w[1..], r);
    }
  }

  /** Splitting words joined by single spaces into fields gives the words back. */
  lemma {:induction false} FieldsJoin(words: seq<string>)
    requires forall k :: 0 <= k < |words| ==> words[k] != [] && NoSpace(words[k])
    ensures Fields(Join(words, ' ')) == words
    decreases |words|
  {
    if |words| >= 1 {
      var w := words[0];
      var rest := if |words| == 1 then "" else [' '] + Join(words[1..], ' ');
      assert Join(words, ' ') == w + rest;
      WordEndOfWord(w, rest);
      assert (w + rest)[..|w|] == w && (w + rest)[|w|..] == rest;
      if |words| == 1 {
        assert Fields(rest) == [];
      } else {
        assert rest[1..] == Join(words[1..], ' ');
        FieldsJoin(words[1..]);
        assert Fields(rest) == words[1..];
      }
      assert words == [w] + words[1..];
    }
  }

  /** strings.TrimSpace: drop leading and trailing spaces. */
  function TrimSpace(s: string): (t: string)
    ensures |t| <= |s|
    decreases |s|
  {
    if s == [] then s
    else if IsSpace(s[0]) then TrimSpace(s[1..])
    else if IsSpace(s[|s| - 1]) then TrimSpace(s[..|s| - 1])
    else s
  }

  /** A space appended to a word does not change where the word ends. */
  lemma {:induction false} WordEndAppendSpace(s: string, c: char)
    requires IsSpace(c)
    ensures WordEnd(s + [c]) == WordEnd(s)
    decreases |s|
  {
    if s != [] && !IsSpace(s[0]) {
      assert (s + [c])[1..] == s[1..] + [c];
      WordEndAppendSpace(s[1..], c);
    }
  }

  /** A trailing space does not change the fields. */
  lemma {:induction false} FieldsAppendSpace(s: string, c: char)
    requires IsSpace(c)
    ensures Fields(s + [c]) == Fields(s)
    decreases |s|
  {
    var t := s + [c];
    if s == [] {
      assert t[1..] == [];
    } else if IsSpace(s[0]) {
      assert t[1..] == s[1..] + [c];
      FieldsAppendSpace(s[1..], c);
    } else {
      WordEndAppendSpace(s, c);
      var w := WordEnd(s);
      assert t[..w] == s[..w];
      assert t[w..] == s[w..] + [c];
      FieldsAppendSpace(s[w..], c);
    }
  }

  /** Trimming before splitting into fields changes nothing: Fields already ignores outer spaces. */
  lemma {:induction false} FieldsOfTrimSpace(s: string)
    ensures Fields(TrimSpace(s)) == Fields(s)
    decreases |s|
  {
    if s == [] {
    } else if IsSpace(s[0]) {
      FieldsOfTrimSpace(s[1..]);
    } else if IsSpace(s[|s| - 1]) {
      FieldsOfTrimSpace(s[..|s| - 1]);
      assert s == s[..|s| - 1] + [s[|s| - 1]];
      FieldsAppendSpace(s[..|s| - 1], s[|s| - 1]);
    }
  }
}
