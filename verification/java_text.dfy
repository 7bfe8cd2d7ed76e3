/**
 * The parts of java.lang.String and Apache commons-lang StringUtils that the
 * plugin relies on, stated over Dafny strings.  A Java `null` string is
 * `None`.
 */
module JavaText {

  datatype Option<T> = None | Some(value: T)

  predicate StartsWith(s: string, prefix: string) {
    |prefix| <= |s| && s[..|prefix|] == prefix
  }

  predicate EndsWith(s: string, suffix: string) {
    |suffix| <= |s| && s[|s| - |suffix|..] == suffix
  }

  /** Character.isWhitespace with the tables of Java 9 and later (Unicode
      6.3 on, where U+180E is no longer a space separator): the space
      separators except the non-breaking ones, the line and paragraph
      separators, and the ASCII controls HT, LF, VT, FF, CR and FS, GS, RS,
      US. */
  predicate IsWhitespace(c: char) {
    c in {' ', '\t', '\n', '\U{B}', '\U{C}', '\r', '\U{1C}', '\U{1D}', '\U{1E}', '\U{1F}',
          '\U{1680}', '\U{2000}', '\U{2001}', '\U{2002}', '\U{2003}', '\U{2004}', '\U{2005}',
          '\U{2006}', '\U{2008}', '\U{2009}', '\U{200A}', '\U{2028}', '\U{2029}', '\U{205F}',
          '\U{3000}'}
  }

  /** StringUtils.isBlank: null, empty, or whitespace only. */
  predicate IsBlank(s: Option<string>)
    ensures s.None? || s.value == [] ==> IsBlank(s)
    ensures s.Some? && s.value != [] && !IsWhitespace(s.value[0]) ==> !IsBlank(s)
  {
    s.None? || forall i :: 0 <= i < |s.value| ==> IsWhitespace(s.value[i])
  }

  /** String.lastIndexOf(char): the position of the last `c`, if any. */
  function LastIndexOf(s: string, c: char): (r: Option<nat>)
    ensures r.None? <==> c !in s
    ensures r.Some? ==> r.value < |s| && s[r.value] == c && c !in s[r.value + 1..]
  {
    if |s| == 0 then None
    else if s[|s| - 1] == c then Some(|s| - 1)
    else
      var r := LastIndexOf(s[..|s| - 1], c);
      assert r.Some? ==> s[r.value + 1..] == s[..|s| - 1][r.value + 1..] + [s[|s| - 1]];
      r
  }

  predicate OccursAt(s: string, pattern: string, i: nat) {
    i + |pattern| <= |s| && s[i..i + |pattern|] == pattern
  }

  lemma OccursAtChar(s: string, pattern: string, i: nat, d: nat)
    requires OccursAt(s, pattern, i) && d < |pattern|
    ensures s[i + d] == pattern[d]
  {
    assert s[i..i + |pattern|][d] == s[i + d];
  }

  /** String.indexOf(String, from): the first occurrence at or after `from`. */
  function IndexOfFrom(s: string, pattern: string, from: nat): (r: Option<nat>)
    ensures r.Some? ==> from <= r.value && OccursAt(s, pattern, r.value)
    ensures r.Some? ==> forall j :: from <= j < r.value ==> !OccursAt(s, pattern, j)
    ensures r.None? ==> forall j :: from <= j ==> !OccursAt(s, pattern, j)
    decreases |s| - from
  {
    if from + |pattern| > |s| then None
    else if OccursAt(s, pattern, from) then Some(from)
    else IndexOfFrom(s, pattern, from + 1)
  }

  /** String.replaceFirst with a pattern free of regular-expression
      metacharacters: the first occurrence of `pattern` becomes `replacement`. */
  function ReplaceFirst(s: string, pattern: string, replacement: string): (r: string)
    ensures (forall j: nat :: !OccursAt(s, pattern, j)) ==> r == s
    ensures forall k: nat :: OccursAt(s, pattern, k) && (forall j: nat :: j < k ==> !OccursAt(s, pattern, j)) ==>
      r == s[..k] + replacement + s[k + |pattern|..]
  {
    match IndexOfFrom(s, pattern, 0)
    case None => s
    case Some(k) => s[..k] + replacement + s[k + |pattern|..]
  }

  /** Every field between separators, empty ones included: one more field
      than there are separators. */
  function SplitAll(s: string, sep: char): (r: seq<string>)
    ensures |r| >= 1
    ensures forall i :: 0 <= i < |r| ==> sep !in r[i]
  {
    if s == [] then [[]]
    else
      var rest := SplitAll(s[1..], sep);
      if s[0] == sep then [[]] + rest
      else [[s[0]] + rest[0]] + rest[1..]
  }

  /** The fields joined back with the separator between them. */
  function Join(fields: seq<string>, sep: char): string
    requires |fields| >= 1
  {
    if |fields| == 1 then fields[0]
    else fields[0] + [sep] + Join(fields[1..], sep)
  }

  /** The fields with all trailing empty ones removed. */
  function DropTrailingEmpty(fields: seq<string>): (r: seq<string>)
    ensures |r| <= |fields| && r == fields[..|r|]
    ensures forall i :: |r| <= i < |fields| ==> fields[i] == []
    ensures r == [] || r[|r| - 1] != []
  {
    if fields == [] || fields[|fields| - 1] != [] then fields
    else DropTrailingEmpty(fields[..|fields| - 1])
  }

  /** String.split with a one-character, metacharacter-free separator: a
      string without the separator is its own only field (even when empty);
      otherwise the fields, trailing empty ones dropped. */
  function Split(s: string, sep: char): (r: seq<string>)
    ensures sep !in s ==> r == [s]
    ensures forall i :: 0 <= i < |r| ==> sep !in r[i]
  {
    if sep !in s then [s] else DropTrailingEmpty(SplitAll(s, sep))
  }

  lemma {:induction false} JoinSplitAll(s: string, sep: char)
    ensures Join(SplitAll(s, sep), sep) == s
  {
    if s != [] {
      var rest := SplitAll(s[1..], sep);
      JoinSplitAll(s[1..], sep);
      if |rest| > 1 {
        assert Join(rest, sep) == rest[0] + [sep] + Join(rest[1..], sep);
      }
      if s[0] == sep {
        assert SplitAll(s, sep) == [[]] + rest;
        assert ([[]] + rest)[1..] == rest;
      } else {
        var fields := [[s[0]] + rest[0]] + rest[1..];
        assert SplitAll(s, sep) == fields;
        if |rest| > 1 {
          assert fields[1..] == rest[1..];
        }
        assert [s[0]] + s[1..] == s;
      }
    }
  }

  /** A separator-free field followed by the separator starts a new field. */
  lemma {:induction false} SplitAllField(field: string, sep: char, tail: string)
    requires sep !in field
    ensures SplitAll(field + [sep] + tail, sep) == [field] + SplitAll(tail, sep)
    ensures SplitAll(field, sep) == [field]
  {
    if field != [] {
      SplitAllField(field[1..], sep, tail);
      assert (field + [sep] + tail)[1..] == field[1..] + [sep] + tail;
      assert [field[0]] + field[1..] == field;
    } else {
      assert ([] + [sep] + tail)[1..] == tail;
    }
  }

  lemma {:induction false} SplitAllJoin(fields: seq<string>, sep: char)
    requires |fields| >= 1
    requires forall i :: 0 <= i < |fields| ==> sep !in fields[i]
    ensures SplitAll(Join(fields, sep), sep) == fields
  {
    SplitAllField(fields[0], sep, []);
    if |fields| > 1 {
      SplitAllJoin(fields[1..], sep);
      SplitAllField(fields[0], sep, Join(fields[1..], sep));
      assert [fields[0]] + fields[1..] == fields;
    }
  }

  /** Some empty field is followed, somewhere later, by a non-empty one. */
  predicate EmptyBeforeNonEmpty(fields: seq<string>) {
    exists k, m :: 0 <= k < m < |fields| && fields[k] == [] && fields[m] != []
  }

  predicate HasNonEmpty(fields: seq<string>) {
    exists m :: 0 <= m < |fields| && fields[m] != []
  }

  /** Some character other than the separator. */
  predicate HasText(s: string, sep: char) {
    exists j :: 0 <= j < |s| && s[j] != sep
  }

  /** A separator at the very start or right after another separator, with
      a character other than the separator somewhere after it. */
  predicate SeparatorOpensEmptyField(s: string, sep: char) {
    exists i, j {:trigger s[i], s[j]} :: 0 <= i < j < |s| && s[i] == sep && (i == 0 || s[i - 1] == sep) && s[j] != sep
  }

  /** Two adjacent separators with a character other than the separator
      somewhere after them. */
  predicate DoubleSeparatorBeforeText(s: string, sep: char) {
    exists i, j {:trigger s[i], s[j]} :: 1 <= i < j < |s| && s[i] == sep && s[i - 1] == sep && s[j] != sep
  }

  lemma {:induction false} HasTextIffNonEmptyField(s: string, sep: char)
    ensures HasNonEmpty(SplitAll(s, sep)) <==> HasText(s, sep)
  {
    if s != [] {
      var rest := SplitAll(s[1..], sep);
      HasTextIffNonEmptyField(s[1..], sep);
      if HasText(s[1..], sep) {
        var j :| 0 <= j < |s[1..]| && s[1..][j] != sep;
        assert s[j + 1] != sep;
      }
      if HasText(s, sep) && s[0] == sep {
        var j :| 0 <= j < |s| && s[j] != sep;
        assert s[1..][j - 1] != sep;
      }
      if s[0] == sep {
        var fields := [[]] + rest;
        assert SplitAll(s, sep) == fields;
        if HasNonEmpty(fields) {
          var m :| 0 <= m < |fields| && fields[m] != [];
          assert rest[m - 1] != [];
        }
        if HasNonEmpty(rest) {
          var m :| 0 <= m < |rest| && rest[m] != [];
          assert fields[m + 1] != [];
        }
      } else {
        var fields := [[s[0]] + rest[0]] + rest[1..];
        assert SplitAll(s, sep) == fields && fields[0] != [];
      }
    }
  }

  lemma EmptyBeforeNonEmptyAfterEmpty(rest: seq<string>)
    ensures EmptyBeforeNonEmpty([[]] + rest) <==> HasNonEmpty(rest) || EmptyBeforeNonEmpty(rest)
  {
    var fields := [[]] + rest;
    if EmptyBeforeNonEmpty(fields) {
      var k, m :| 0 <= k < m < |fields| && fields[k] == [] && fields[m] != [];
      assert rest[m - 1] != [];
      if k > 0 {
        assert rest[k - 1] == [];
      }
    }
    if HasNonEmpty(rest) {
      var m :| 0 <= m < |rest| && rest[m] != [];
      assert fields[0] == [] && fields[m + 1] != [];
    }
    if EmptyBeforeNonEmpty(rest) {
      var k, m :| 0 <= k < m < |rest| && rest[k] == [] && rest[m] != [];
      assert fields[k + 1] == [] && fields[m + 1] != [];
    }
  }

  lemma EmptyBeforeNonEmptyAfterText(first: string, rest: seq<string>)
    requires first != []
    ensures EmptyBeforeNonEmpty([first] + rest) <==> EmptyBeforeNonEmpty(rest)
  {
    var fields := [first] + rest;
    if EmptyBeforeNonEmpty(fields) {
      var k, m :| 0 <= k < m < |fields| && fields[k] == [] && fields[m] != [];
      assert rest[k - 1] == [] && rest[m - 1] != [];
    }
    if EmptyBeforeNonEmpty(rest) {
      var k, m :| 0 <= k < m < |rest| && rest[k] == [] && rest[m] != [];
      assert fields[k + 1] == [] && fields[m + 1] != [];
    }
  }

  lemma SeparatorsAfterSeparator(s: string, sep: char)
    requires s != [] && s[0] == sep
    ensures SeparatorOpensEmptyField(s, sep) <==> HasText(s[1..], sep) || SeparatorOpensEmptyField(s[1..], sep)
    ensures DoubleSeparatorBeforeText(s, sep) <==> SeparatorOpensEmptyField(s[1..], sep)
  {
    var r := s[1..];
    if SeparatorOpensEmptyField(s, sep) {
      var i, j :| 0 <= i < j < |s| && s[i] == sep && (i == 0 || s[i - 1] == sep) && s[j] != sep;
      assert 0 <= j - 1 < |r| && r[j - 1] != sep;
      assert HasText(r, sep);
      if i > 0 {
        assert 0 <= i - 1 < j - 1 < |r| && r[i - 1] == sep && (i - 1 == 0 || r[i - 2] == sep) && r[j - 1] != sep;
        assert SeparatorOpensEmptyField(r, sep);
      }
    }
    if HasText(r, sep) {
      var j :| 0 <= j < |r| && r[j] != sep;
      assert 0 < j + 1 < |s| && s[0] == sep && s[j + 1] != sep;
      assert SeparatorOpensEmptyField(s, sep);
    }
    if SeparatorOpensEmptyField(r, sep) {
      var i, j :| 0 <= i < j < |r| && r[i] == sep && (i == 0 || r[i - 1] == sep) && r[j] != sep;
      assert 1 <= i + 1 < j + 1 < |s| && s[i + 1] == sep && s[i] == sep && s[j + 1] != sep;
      assert DoubleSeparatorBeforeText(s, sep);
      assert SeparatorOpensEmptyField(s, sep);
    }
    if DoubleSeparatorBeforeText(s, sep) {
      var i, j :| 1 <= i < j < |s| && s[i] == sep && s[i - 1] == sep && s[j] != sep;
      assert 0 <= i - 1 < j - 1 < |r| && r[i - 1] == sep && (i - 1 == 0 || r[i - 2] == sep) && r[j - 1] != sep;
      assert SeparatorOpensEmptyField(r, sep);
    }
  }

  lemma SeparatorsAfterText(s: string, sep: char)
    requires s != [] && s[0] != sep
    ensures SeparatorOpensEmptyField(s, sep) <==> DoubleSeparatorBeforeText(s[1..], sep)
    ensures DoubleSeparatorBeforeText(s, sep) <==> DoubleSeparatorBeforeText(s[1..], sep)
  {
    var r := s[1..];
    if SeparatorOpensEmptyField(s, sep) {
      var i, j :| 0 <= i < j < |s| && s[i] == sep && (i == 0 || s[i - 1] == sep) && s[j] != sep;
      assert i >= 2;
      assert r[i - 1] == sep && r[i - 2] == sep && r[j - 1] != sep;
    }
    if DoubleSeparatorBeforeText(s, sep) {
      var i, j :| 1 <= i < j < |s| && s[i] == sep && s[i - 1] == sep && s[j] != sep;
      assert i >= 2;
      assert r[i - 1] == sep && r[i - 2] == sep && r[j - 1] != sep;
    }
    if DoubleSeparatorBeforeText(r, sep) {
      var i, j :| 1 <= i < j < |r| && r[i] == sep && r[i - 1] == sep && r[j] != sep;
      assert s[i + 1] == sep && s[i] == sep && s[j + 1] != sep;
    }
  }

  /** The fields of `s` hold an empty field before a non-empty one exactly
      when a separator opens an empty field and text follows it; among the
      fields after the first, exactly when two separators meet before text. */
  lemma {:induction false} EmptyFieldIffSeparatorRun(s: string, sep: char)
    ensures EmptyBeforeNonEmpty(SplitAll(s, sep)) <==> SeparatorOpensEmptyField(s, sep)
    ensures EmptyBeforeNonEmpty(SplitAll(s, sep)[1..]) <==> DoubleSeparatorBeforeText(s, sep)
  {
    if s != [] {
      var r := s[1..];
      var rest := SplitAll(r, sep);
      EmptyFieldIffSeparatorRun(r, sep);
      if s[0] == sep {
        assert SplitAll(s, sep) == [[]] + rest;
        assert SplitAll(s, sep)[1..] == rest;
        EmptyBeforeNonEmptyAfterEmpty(rest);
        HasTextIffNonEmptyField(r, sep);
        SeparatorsAfterSeparator(s, sep);
      } else {
        assert SplitAll(s, sep) == [[s[0]] + rest[0]] + rest[1..];
        assert SplitAll(s, sep)[1..] == rest[1..];
        EmptyBeforeNonEmptyAfterText([s[0]] + rest[0], rest[1..]);
        SeparatorsAfterText(s, sep);
      }
    }
  }

  /** After String.split drops the trailing empty fields, an empty field is
      left exactly when an empty field was followed by a non-empty one. */
  lemma DropTrailingKeepsInnerEmpty(fields: seq<string>)
    ensures (exists k :: 0 <= k < |DropTrailingEmpty(fields)| && DropTrailingEmpty(fields)[k] == [])
            <==> EmptyBeforeNonEmpty(fields)
  {
    var r := DropTrailingEmpty(fields);
    if exists k :: 0 <= k < |r| && r[k] == [] {
      var k :| 0 <= k < |r| && r[k] == [];
      assert 0 <= k < |r| - 1 < |fields| && fields[k] == [] && fields[|r| - 1] != [];
    }
    if EmptyBeforeNonEmpty(fields) {
      var k, m :| 0 <= k < m < |fields| && fields[k] == [] && fields[m] != [];
      assert m < |r|;
      assert 0 <= k < |r| && r[k] == [];
      assert exists k :: 0 <= k < |DropTrailingEmpty(fields)| && DropTrailingEmpty(fields)[k] == [];
    }
  }
}
