/**
 * The part of JavaScript's string API that the authorization check uses:
 * `String.prototype.split` with a one-character separator, and indexing into
 * the array it returns.
 */
module JsString {
  import opened Wrappers

  /** Number of occurrences of `c` in `s`. */
  function Occurrences(s: string, c: char): (n: nat)
    ensures n <= |s|
    ensures n == 0 <==> c !in s
  {
    if s == [] then 0 else (if s[0] == c then 1 else 0) + Occurrences(s[1..], c)
  }

  /** `fields.join(sep)`: the fields with one separator between neighbours. */
  function Join(fields: seq<string>, sep: char): string
    requires |fields| >= 1
  {
    if |fields| == 1 then fields[0] else fields[0] + [sep] + Join(fields[1..], sep)
  }

  /**
   * `s.split(sep)` for a one-character separator: every occurrence of `sep`
   * ends a field, empty fields are kept, and the empty string splits into one
   * empty field.
   */
  function Split(s: string, sep: char): (fields: seq<string>)
    ensures |fields| == Occurrences(s, sep) + 1
    ensures forall i :: 0 <= i < |fields| ==> sep !in fields[i]
  {
    if s == [] then [[]]
    else
      var rest := Split(s[1..], sep);
      if s[0] == sep then [[]] + rest
      else [[s[0]] + rest[0]] + rest[1..]
  }

  /** `fields[i]` in JavaScript: `undefined` past the end of the array. */
  function Field(fields: seq<string>, i: nat): Option<string>
  {
    if i < |fields| then Some(fields[i]) else None
  }

  /** The longest prefix of `s` that does not contain `sep`. */
  function UpToSeparator(s: string, sep: char): (w: string)
    ensures sep !in w
    ensures w <= s
    ensures |w| < |s| ==> s[|w|] == sep
  {
    if s == [] || s[0] == sep then [] else [s[0]] + UpToSeparator(s[1..], sep)
  }

  /**
   * The text between the first and the second separator (or the end), and
   * `None` when `s` has no separator at all.
   */
  function SecondSegment(s: string, sep: char): Option<string>
  {
    var w := UpToSeparator(s, sep);
    if |w| < |s| then Some(UpToSeparator(s[|w| + 1..], sep)) else None
  }

  /** Splitting and joining again gives back the original string. */
  lemma {:induction false} JoinSplit(s: string, sep: char)
    ensures Join(Split(s, sep), sep) == s
  {
    if s != [] {
      var rest := Split(s[1..], sep);
      JoinSplit(s[1..], sep);
      assert s == [s[0]] + s[1..];
      if s[0] == sep {
        JoinAfterEmptyField(rest, sep);
      } else {
        JoinExtendsFirstField(s[0], rest, sep);
      }
    }
  }

  /** An empty first field contributes only its separator to the join. */
  lemma JoinAfterEmptyField(fields: seq<string>, sep: char)
    requires |fields| >= 1
    ensures Join([[]] + fields, sep) == [sep] + Join(fields, sep)
  {
    assert ([[]] + fields)[1..] == fields;
  }

  /** Putting a character in front of the first field puts it in front of the join. */
  lemma JoinExtendsFirstField(c: char, fields: seq<string>, sep: char)
    requires |fields| >= 1
    ensures Join([[c] + fields[0]] + fields[1..], sep) == [c] + Join(fields, sep)
  {
    var extended := [[c] + fields[0]] + fields[1..];
    if |fields| > 1 {
      assert extended[1..] == fields[1..];
    }
  }

  /** A string without the separator is a single field. */
  lemma {:induction false} SplitWithoutSeparator(s: string, sep: char)
    requires sep !in s
    ensures Split(s, sep) == [s]
  {
    if s != [] {
      SplitWithoutSeparator(s[1..], sep);
      assert [s[0]] + s[1..] == s;
    }
  }

  /** A separator-free prefix followed by the separator is the first field. */
  lemma {:induction false} SplitAfterField(a: string, sep: char, b: string)
    requires sep !in a
    ensures Split(a + [sep] + b, sep) == [a] + Split(b, sep)
  {
    var s := a + [sep] + b;
    if a == [] {
      assert s[0] == sep && s[1..] == b;
      assert Split(s, sep) == [[]] + Split(b, sep);
    } else {
      var tail := a[1..] + [sep] + b;
      assert s[0] == a[0] && s[1..] == tail;
      SplitAfterField(a[1..], sep, b);
      var rest := Split(tail, sep);
      assert rest == [a[1..]] + Split(b, sep);
      assert Split(s, sep) == [[a[0]] + rest[0]] + rest[1..];
      assert [a[0]] + a[1..] == a;
    }
  }

  /** Joining separator-free fields and splitting again gives back the fields. */
  lemma {:induction false} SplitJoin(fields: seq<string>, sep: char)
    requires |fields| >= 1
    requires forall i :: 0 <= i < |fields| ==> sep !in fields[i]
    ensures Split(Join(fields, sep), sep) == fields
  {
    if |fields| == 1 {
      SplitWithoutSeparator(fields[0], sep);
    } else {
      var tail := fields[1..];
      assert forall i :: 0 <= i < |tail| ==> tail[i] == fields[i + 1];
      SplitJoin(tail, sep);
      var joined := Join(tail, sep);
      assert Join(fields, sep) == fields[0] + [sep] + joined;
      SplitAfterField(fields[0], sep, joined);
      assert fields == [fields[0]] + tail;
    }
  }

  /** The first field is the longest separator-free prefix. */
  lemma {:induction false} SplitFirstField(s: string, sep: char)
    ensures Split(s, sep)[0] == UpToSeparator(s, sep)
  {
    if s != [] && s[0] != sep {
      SplitFirstField(s[1..], sep);
    }
  }

  /** When the separator occurs, the string is its first field, the separator, and the rest. */
  lemma SeparatorAfterFirstField(s: string, sep: char)
    requires |UpToSeparator(s, sep)| < |s|
    ensures s == UpToSeparator(s, sep) + [sep] + s[|UpToSeparator(s, sep)| + 1..]
  {
    var w := UpToSeparator(s, sep);
    assert s[..|w|] == w;
    assert s == s[..|w|] + [s[|w|]] + s[|w| + 1..];
  }

  /** With a separator, field 1 is the text after the first field, up to the next separator. */
  lemma SplitSecondFieldWithSeparator(s: string, sep: char)
    requires |UpToSeparator(s, sep)| < |s|
    ensures Field(Split(s, sep), 1) == SecondSegment(s, sep)
  {
    var w := UpToSeparator(s, sep);
    var t := s[|w| + 1..];
    SeparatorAfterFirstField(s, sep);
    SplitAfterField(w, sep, t);
    SplitFirstField(t, sep);
  }

  /**
   * Field 1 of a split exists exactly when the separator occurs, and it is
   * the text between the first and the second separator.
   */
  lemma SplitSecondField(s: string, sep: char)
    ensures Field(Split(s, sep), 1).Some? <==> sep in s
    ensures Field(Split(s, sep), 1) == SecondSegment(s, sep)
  {
    var w := UpToSeparator(s, sep);
    if |w| < |s| {
      SplitSecondFieldWithSeparator(s, sep);
      assert s[|w|] == sep;
    } else {
      assert w == s;
      SplitWithoutSeparator(s, sep);
    }
  }
}
