/** String helpers of the seed script: `capitalize` and `Array.prototype.join(', ')`. */
module Text {

  /** Separator the script passes to `join`. */
  const SEPARATOR: string := ", "

  /** Upper-case form of one character (ASCII letters only; every other character is kept). */
  function ToUpper(c: char): char
  {
    if 'a' <= c <= 'z' then (c as int - 32) as char else c
  }

  /** `value.charAt(0).toUpperCase() + value.slice(1)`. */
  function Capitalize(value: string): (r: string)
    ensures |r| == |value|
    ensures |value| > 0 ==> r[0] == ToUpper(value[0])
    ensures forall i :: 1 <= i < |value| ==> r[i] == value[i]
  {
    if value == [] then [] else [ToUpper(value[0])] + value[1..]
  }

  /** A name that already starts with a character `toUpperCase` keeps is returned as it is. */
  lemma CapitalizeKeepsCapitalized(value: string)
    requires value == [] || ToUpper(value[0]) == value[0]
    ensures Capitalize(value) == value
  {
    if value != [] {
      assert [value[0]] + value[1..] == value;
    }
  }

  /** Capitalizing twice is capitalizing once. */
  lemma CapitalizeIdempotent(value: string)
    ensures Capitalize(Capitalize(value)) == Capitalize(value)
  {
    var once := Capitalize(value);
    if once != [] {
      assert ToUpper(once[0]) == once[0];
      CapitalizeKeepsCapitalized(once);
    }
  }

  /** `parts.join(', ')`: no separator before the first part nor after the last. */
  function Join(parts: seq<string>): (r: string)
    ensures |parts| == 0 ==> r == ""
    ensures |parts| >= 1 ==> |r| >= |parts[0]| && r[..|parts[0]|] == parts[0]
  {
    if |parts| == 0 then ""
    else if |parts| == 1 then parts[0]
    else parts[0] + SEPARATOR + Join(parts[1..])
  }

  /** A join ends with its last part. */
  lemma {:induction false} JoinEndsWithLast(parts: seq<string>)
    requires |parts| >= 1
    ensures var r := Join(parts);
            var last := parts[|parts| - 1];
            |r| >= |last| && r[|r| - |last|..] == last
  {
    if |parts| > 1 {
      JoinEndsWithLast(parts[1..]);
      assert parts[1..][|parts[1..]| - 1] == parts[|parts| - 1];
    }
  }

  /** Splits at every ", " — the reading a consumer of a joined field applies. */
  function Split(s: string): (r: seq<string>)
    ensures |r| >= 1
    decreases |s|
  {
    if |s| == 0 then [""]
    else if |s| >= 2 && s[0] == ',' && s[1] == ' ' then [""] + Split(s[2..])
    else
      var rest := Split(s[1..]);
      [[s[0]] + rest[0]] + rest[1..]
  }

  predicate CommaFree(parts: seq<string>)
  {
    forall i :: 0 <= i < |parts| ==> ',' !in parts[i]
  }

  /** A leading character other than a comma joins the first piece. */
  lemma SplitCons(c: char, s: string)
    requires c != ','
    ensures Split([c] + s) == [[c] + Split(s)[0]] + Split(s)[1..]
  {
    assert ([c] + s)[0] == c && ([c] + s)[1..] == s;
  }

  /** A comma-free prefix glues onto the first piece of what follows it. */
  lemma {:induction false} SplitCommaFreePrefix(p: string, t: string)
    requires ',' !in p
    ensures Split(p + t) == [p + Split(t)[0]] + Split(t)[1..]
  {
    var r := Split(t);
    if p == [] {
      assert p + t == t;
      assert p + r[0] == r[0];
      assert [r[0]] + r[1..] == r;
    } else {
      var tail := p[1..];
      assert p + t == [p[0]] + (tail + t);
      SplitCons(p[0], tail + t);
      SplitCommaFreePrefix(tail, t);
      assert [p[0]] + (tail + r[0]) == p + r[0];
    }
  }

  /** Joining comma-free parts loses nothing: every part comes back, in the same order. */
  lemma {:induction false} SplitJoin(parts: seq<string>)
    requires |parts| >= 1 && CommaFree(parts)
    ensures Split(Join(parts)) == parts
  {
    if |parts| == 1 {
      SplitCommaFreePrefix(parts[0], "");
      assert parts[0] + "" == parts[0];
      assert [parts[0]] == parts;
    } else {
      var tail := Join(parts[1..]);
      assert CommaFree(parts[1..]) by {
        forall i | 0 <= i < |parts[1..]| ensures ',' !in parts[1..][i] {
          assert parts[1..][i] == parts[i + 1];
        }
      }
      SplitJoin(parts[1..]);
      var t := SEPARATOR + tail;
      assert Join(parts) == parts[0] + t;
      assert ',' !in parts[0];
      SplitCommaFreePrefix(parts[0], t);
      assert t[2..] == tail;
      assert Split(t) == [""] + Split(tail);
      assert parts[0] + "" == parts[0];
      assert [parts[0]] + parts[1..] == parts;
    }
  }

  /** The join of an empty list is the empty string, as is the join of one empty part. */
  lemma JoinEmptyAmbiguous()
    ensures Join([]) == Join([""]) == ""
  {
  }
}
