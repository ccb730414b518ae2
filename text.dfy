/**
 * The string operations the converter relies on: `string.Split(char, StringSplitOptions.None)`,
 * `string.Join(char, string[])` and a case-insensitive `StartsWith`.
 */
module Text {

  /** Number of occurrences of `c` in `s`. */
  function Count(s: string, c: char): nat {
    if |s| == 0 then 0 else (if s[0] == c then 1 else 0) + Count(s[1..], c)
  }

  /** `string.Join(sep, fields)`: the fields with one `sep` between neighbours. */
  function Join(fields: seq<string>, sep: char): string {
    if |fields| == 0 then ""
    else if |fields| == 1 then fields[0]
    else fields[0] + [sep] + Join(fields[1..], sep)
  }

  /** The first field is a prefix of the joined line. */
  lemma JoinStartsWithFirst(fields: seq<string>, sep: char)
    requires |fields| >= 1
    ensures |fields[0]| <= |Join(fields, sep)|
    ensures Join(fields, sep)[..|fields[0]|] == fields[0]
  {
  }

  /**
   * `s.Split(sep, StringSplitOptions.None)`: every maximal run of characters between separators
   * is one field, empty fields kept, so there is always at least one field.
   */
  function Split(s: string, sep: char): (r: seq<string>)
    ensures |r| == Count(s, sep) + 1
    ensures forall i :: 0 <= i < |r| ==> sep !in r[i]
    ensures Join(r, sep) == s
  {
    if |s| == 0 then [""]
    else
      var rest := Split(s[1..], sep);
      if s[0] == sep then
        [""] + rest
      else
        JoinExtendsHead(rest, sep, s[0]);
        assert s == [s[0]] + s[1..];
        [[s[0]] + rest[0]] + rest[1..]
  }

  lemma JoinExtendsHead(fields: seq<string>, sep: char, c: char)
    requires |fields| >= 1
    ensures Join([[c] + fields[0]] + fields[1..], sep) == [c] + Join(fields, sep)
  {
    var g := [[c] + fields[0]] + fields[1..];
    assert g[1..] == fields[1..];
  }

  /** Splitting a joined line gives back its fields when none of them holds the separator. */
  lemma {:induction false} SplitJoin(fields: seq<string>, sep: char)
    requires |fields| >= 1
    requires forall i :: 0 <= i < |fields| ==> sep !in fields[i]
    ensures Split(Join(fields, sep), sep) == fields
    decreases |fields|, |fields[0]|
  {
    var f0 := fields[0];
    if |f0| == 0 {
      if |fields| > 1 {
        SplitJoin(fields[1..], sep);
        var j := Join(fields, sep);
        assert j == [sep] + Join(fields[1..], sep);
        assert j[1..] == Join(fields[1..], sep);
        assert fields == [""] + fields[1..];
      }
    } else {
      var shorter := [f0[1..]] + fields[1..];
      assert forall i :: 0 <= i < |shorter| ==> sep !in shorter[i] by {
        forall i | 0 <= i < |shorter| ensures sep !in shorter[i] {
          if i == 0 {
            assert forall k :: 0 <= k < |f0[1..]| ==> f0[1..][k] == f0[k + 1];
          } else {
            assert shorter[i] == fields[i];
          }
        }
      }
      SplitJoin(shorter, sep);
      JoinExtendsHead(shorter, sep, f0[0]);
      assert [f0[0]] + shorter[0] == f0;
      assert [[f0[0]] + shorter[0]] + shorter[1..] == fields;
      var j := Join(fields, sep);
      assert j == [f0[0]] + Join(shorter, sep);
      assert j[0] == f0[0] && j[0] != sep;
      assert j[1..] == Join(shorter, sep);
      var rest := Split(j[1..], sep);
      assert rest == shorter;
      assert Split(j, sep) == [[j[0]] + rest[0]] + rest[1..];
    }
  }

  /** The characters before the first `sep`: field 0 of `Split(s, sep)`, computed without splitting. */
  function FirstField(s: string, sep: char): (r: string)
    ensures r == Split(s, sep)[0]
    ensures |r| <= |s| && r == s[..|r|]
    ensures sep !in r
    ensures |r| < |s| ==> s[|r|] == sep
  {
    if |s| == 0 then ""
    else if s[0] == sep then ""
    else
      var rest := FirstField(s[1..], sep);
      assert s[..1 + |rest|] == [s[0]] + s[1..][..|rest|];
      [s[0]] + rest
  }

  /** ASCII case folding, as the invariant culture folds the letters of the header marker. */
  function Upper(c: char): char {
    if 'a' <= c <= 'z' then (c as int - 32) as char else c
  }

  /** `s.StartsWith(prefix, StringComparison.InvariantCultureIgnoreCase)`, letter by letter. */
  predicate StartsWithIgnoreCase(s: string, prefix: string)
    ensures |prefix| <= |s| && s[..|prefix|] == prefix ==> StartsWithIgnoreCase(s, prefix)
  {
    |prefix| <= |s| && forall i :: 0 <= i < |prefix| ==> Upper(s[i]) == Upper(prefix[i])
  }

  /** Only the first `|prefix|` characters decide. */
  lemma StartsWithIgnoreCaseExtend(s: string, t: string, prefix: string)
    requires |prefix| <= |s| <= |t| && s == t[..|s|]
    ensures StartsWithIgnoreCase(s, prefix) <==> StartsWithIgnoreCase(t, prefix)
  {
    assert forall i :: 0 <= i < |prefix| ==> s[i] == t[i];
  }
}
