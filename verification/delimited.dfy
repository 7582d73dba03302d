/** Python's `str.split('->')` and its inverse `'->'.join(...)`, on strings. */
module Delimited {

  /** True when `s` has the two-character separator `->` starting at index `i`. */
  predicate SepAt(s: string, i: int)
  {
    0 <= i && i + 1 < |s| && s[i] == '-' && s[i + 1] == '>'
  }

  /** No occurrence of the separator anywhere in `s`. */
  predicate NoSep(s: string)
  {
    forall i :: 0 <= i < |s| ==> !SepAt(s, i)
  }

  /** `s.split('->')`: cut at every leftmost, non-overlapping occurrence of the separator.
      Like Python, the result is never empty and keeps empty pieces. */
  function Split(s: string): (r: seq<string>)
    ensures |r| >= 1
    ensures forall k :: 0 <= k < |r| ==> NoSep(r[k])
    ensures |r[0]| <= |s| && r[0] == s[..|r[0]|]
    decreases |s|
  {
    if |s| < 2 then
      [s]
    else if s[0] == '-' && s[1] == '>' then
      [""] + Split(s[2..])
    else
      var rest := Split(s[1..]);
      assert NoSep([s[0]] + rest[0]) by {
        forall i | 0 <= i < |[s[0]] + rest[0]|
          ensures !SepAt([s[0]] + rest[0], i)
        {
          if i > 0 {
            assert !SepAt(rest[0], i - 1);
          } else if |rest[0]| > 0 {
            // the first piece of `s[1..]` starts where `s[1..]` starts
            assert rest[0][0] == s[1];
          }
        }
      }
      [[s[0]] + rest[0]] + rest[1..]
  }

  /** `'->'.join(parts)`. */
  function Join(parts: seq<string>): string
    requires |parts| >= 1
  {
    if |parts| == 1 then parts[0] else parts[0] + "->" + Join(parts[1..])
  }

  lemma JoinConsFirst(c: char, parts: seq<string>)
    requires |parts| >= 1
    ensures Join([[c] + parts[0]] + parts[1..]) == [c] + Join(parts)
  {
    var q := [[c] + parts[0]] + parts[1..];
    assert q[1..] == parts[1..];
  }

  /** Splitting and joining again gives back the original string. */
  lemma {:induction false} JoinSplit(s: string)
    ensures Join(Split(s)) == s
    decreases |s|
  {
    if |s| < 2 {
    } else if s[0] == '-' && s[1] == '>' {
      JoinSplit(s[2..]);
      var r := Split(s[2..]);
      assert ([""] + r)[1..] == r;
      assert s == "->" + s[2..];
    } else {
      JoinSplit(s[1..]);
      JoinConsFirst(s[0], Split(s[1..]));
      assert s == [s[0]] + s[1..];
    }
  }

  /** A separator-free prefix that does not end in `-` just before a `>`
      is glued onto the first piece. */
  lemma {:induction false} SplitPrefix(p: string, s: string)
    requires NoSep(p)
    requires |p| > 0 && p[|p| - 1] == '-' ==> !(|s| > 0 && s[0] == '>')
    ensures Split(p + s) == [p + Split(s)[0]] + Split(s)[1..]
    decreases |p|
  {
    if |p| == 0 {
      assert p + s == s;
      assert p + Split(s)[0] == Split(s)[0];
      assert [Split(s)[0]] + Split(s)[1..] == Split(s);
    } else {
      var t := p + s;
      assert t[1..] == p[1..] + s;
      assert NoSep(p[1..]) by {
        forall i | 0 <= i < |p[1..]| ensures !SepAt(p[1..], i) {
          assert !SepAt(p, i + 1);
        }
      }
      SplitPrefix(p[1..], s);
      if |t| < 2 {
        assert |p| == 1 && |s| == 0;
        assert t == p;
      } else {
        assert !(t[0] == '-' && t[1] == '>') by {
          if |p| >= 2 {
            assert !SepAt(p, 0);
          }
        }
        var rest := Split(t[1..]);
        assert Split(t) == [[t[0]] + rest[0]] + rest[1..];
        assert [t[0]] + (p[1..] + Split(s)[0]) == p + Split(s)[0];
      }
    }
  }

  /** Joining separator-free pieces and splitting again gives back the pieces. */
  lemma {:induction false} SplitJoin(parts: seq<string>)
    requires |parts| >= 1
    requires forall k :: 0 <= k < |parts| ==> NoSep(parts[k])
    ensures Split(Join(parts)) == parts
    decreases |parts|
  {
    if |parts| == 1 {
      assert Split(parts[0] + "") == [parts[0] + Split("")[0]] + Split("")[1..] by {
        SplitPrefix(parts[0], "");
      }
      assert parts[0] + "" == parts[0];
    } else {
      var tail := Join(parts[1..]);
      SplitJoin(parts[1..]);
      var s := "->" + tail;
      assert s[2..] == tail;
      assert Split(s) == [""] + Split(tail);
      SplitPrefix(parts[0], s);
      assert Split(s)[0] == "" && Split(s)[1..] == parts[1..];
      assert parts[0] + "" == parts[0];
      assert parts[0] + s == Join(parts);
      assert [parts[0]] + parts[1..] == parts;
    }
  }
}
