/** The string operations the bookmark client and server share:
    `String.prototype.split` on a one-character separator,
    `Array.prototype.join`, and substring containment (the meaning the
    server's `LIKE '%t%'` filter is given in this model). */
module Strings {

  /** Number of occurrences of `c` in `s`. */
  function Count(s: string, c: char): (n: nat)
    ensures n <= |s|
    ensures n == 0 <==> c !in s
  {
    if |s| == 0 then 0
    else
      assert s == [s[0]] + s[1..];
      (if s[0] == c then 1 else 0) + Count(s[1..], c)
  }

  /** `s.split(sep)` for a one-character separator. Like JavaScript, it
      always yields one more piece than there are separators, so the empty
      string splits into the single piece "". */
  function Split(s: string, sep: char): (parts: seq<string>)
    ensures |parts| == Count(s, sep) + 1
    ensures forall i :: 0 <= i < |parts| ==> sep !in parts[i]
    decreases |s|
  {
    if |s| == 0 then [""]
    else
      var rest := Split(s[1..], sep);
      if s[0] == sep then [""] + rest
      else [[s[0]] + rest[0]] + rest[1..]
  }

  /** `parts.join(sep)`: the pieces with one separator between neighbours. */
  function Join(parts: seq<string>, sep: char): string
  {
    if |parts| == 0 then ""
    else if |parts| == 1 then parts[0]
    else parts[0] + [sep] + Join(parts[1..], sep)
  }

  /** `p` is a prefix of `s`. */
  predicate IsPrefix(p: string, s: string) {
    |p| <= |s| && s[..|p|] == p
  }

  /** `t` occurs somewhere in `s` as a contiguous run. */
  predicate Contains(s: string, t: string)
    decreases |s|
  {
    IsPrefix(t, s) || (|s| > 0 && Contains(s[1..], t))
  }

  /** `t` occurs in `s` starting at index `i`. */
  predicate OccursAt(s: string, t: string, i: int) {
    0 <= i && i + |t| <= |s| && s[i..i + |t|] == t
  }

  /** Joining a piece in front of a non-empty list puts one separator
      between the piece and the rest. */
  lemma JoinCons(p: string, parts: seq<string>, sep: char)
    requires |parts| > 0
    ensures Join([p] + parts, sep) == p + [sep] + Join(parts, sep)
  {
    assert ([p] + parts)[1..] == parts;
  }

  /** One step of `Split`, as an equation. */
  lemma SplitStep(s: string, sep: char)
    requires |s| > 0
    ensures s[0] == sep ==> Split(s, sep) == [""] + Split(s[1..], sep)
    ensures s[0] != sep ==>
      Split(s, sep) == [[s[0]] + Split(s[1..], sep)[0]] + Split(s[1..], sep)[1..]
  {
  }

  /** Joining two pieces puts one separator between them. */
  lemma JoinPair(a: string, b: string, sep: char)
    ensures Join([a, b], sep) == a + [sep] + b
  {
    assert [a, b][1..] == [b];
  }

  /** Splitting and joining back with the same separator gives the
      original string, for every string. */
  lemma {:induction false} JoinSplit(s: string, sep: char)
    ensures Join(Split(s, sep), sep) == s
    decreases |s|
  {
    if |s| > 0 {
      var tail := s[1..];
      var rest := Split(tail, sep);
      JoinSplit(tail, sep);
      assert s == [s[0]] + tail;
      if s[0] == sep {
        SplitConsSeparator(tail, sep);
        JoinCons("", rest, sep);
      } else {
        SplitCons(s[0], tail, sep);
        JoinGluedHead(s[0], rest, sep);
      }
    }
  }

  // Gluing a character onto the first piece glues it onto the join.
  lemma JoinGluedHead(c: char, parts: seq<string>, sep: char)
    requires |parts| > 0
    ensures Join([[c] + parts[0]] + parts[1..], sep) == [c] + Join(parts, sep)
  {
    if |parts| > 1 {
      JoinCons([c] + parts[0], parts[1..], sep);
      JoinCons(parts[0], parts[1..], sep);
      assert [parts[0]] + parts[1..] == parts;
    }
  }

  /** Splitting a separator-free piece followed by more text: the piece
      is glued onto the first piece of the remainder. */
  lemma {:induction false} SplitFreePrefix(p: string, t: string, sep: char)
    requires sep !in p
    ensures Split(p + t, sep) == [p + Split(t, sep)[0]] + Split(t, sep)[1..]
    decreases |p|
  {
    if |p| == 0 {
      assert p + t == t;
      assert p + Split(t, sep)[0] == Split(t, sep)[0];
      assert [Split(t, sep)[0]] + Split(t, sep)[1..] == Split(t, sep);
    } else {
      assert (p + t)[1..] == p[1..] + t;
      assert (p + t)[0] == p[0] != sep;
      SplitFreePrefix(p[1..], t, sep);
      assert [p[0]] + (p[1..] + Split(t, sep)[0]) == p + Split(t, sep)[0];
    }
  }

  /** A separator between two strings splits them apart: the pieces of
      `a + sep + b` are the pieces of `a` followed by those of `b`. */
  lemma {:induction false} SplitAcrossSeparator(a: string, b: string, sep: char)
    ensures Split(a + [sep] + b, sep) == Split(a, sep) + Split(b, sep)
    decreases |a|
  {
    if |a| == 0 {
      assert a + [sep] + b == [sep] + b;
      SplitConsSeparator(b, sep);
    } else {
      var v := a[1..] + [sep] + b;
      SplitAcrossSeparator(a[1..], b, sep);
      ConsKeepsTail(a[0], v, a[1..], Split(b, sep), sep);
      Recompose(a, v, sep, b);
    }
  }

  // Regrouping `a + sep + b` around its first character.
  lemma Recompose(a: string, v: string, sep: char, b: string)
    requires |a| > 0 && v == a[1..] + [sep] + b
    ensures a + [sep] + b == [a[0]] + v && a == [a[0]] + a[1..]
  {
  }

  /** `Split` of a string that starts with a non-separator character:
      the character joins the first piece of the rest. */
  lemma SplitCons(c: char, v: string, sep: char)
    requires c != sep
    ensures Split([c] + v, sep) == [[c] + Split(v, sep)[0]] + Split(v, sep)[1..]
  {
    SplitStep([c] + v, sep);
    assert ([c] + v)[1..] == v;
  }

  /** `Split` of a string that starts with the separator: an empty first
      piece, then the pieces of the rest. */
  lemma SplitConsSeparator(v: string, sep: char)
    ensures Split([sep] + v, sep) == [""] + Split(v, sep)
  {
    SplitStep([sep] + v, sep);
    assert ([sep] + v)[1..] == v;
  }

  // Regrouping a cons and an append; kept apart so the solver sees it in isolation.
  lemma ConsAppend(c: char, x: string, y: string, a: seq<string>, b: seq<string>, tail: seq<string>)
    requires x == y && a == b + tail
    ensures [[c] + x] + a == [[c] + y] + b + tail
  {
  }

  /** If the pieces of `v` are those of `u` followed by `tail`, the same
      holds after putting one more character in front of both. */
  lemma ConsKeepsTail(c: char, v: string, u: string, tail: seq<string>, sep: char)
    requires Split(v, sep) == Split(u, sep) + tail
    ensures Split([c] + v, sep) == Split([c] + u, sep) + tail
  {
    if c == sep {
      SeparatorKeepsTail(v, u, tail, sep);
    } else {
      CharKeepsTail(c, v, u, tail, sep);
    }
  }

  // ConsKeepsTail when the new character is the separator.
  lemma SeparatorKeepsTail(v: string, u: string, tail: seq<string>, sep: char)
    requires Split(v, sep) == Split(u, sep) + tail
    ensures Split([sep] + v, sep) == Split([sep] + u, sep) + tail
  {
    SplitConsSeparator(v, sep);
    SplitConsSeparator(u, sep);
    assert [""] + (Split(u, sep) + tail) == [""] + Split(u, sep) + tail;
  }

  // ConsKeepsTail when the new character is not the separator.
  lemma CharKeepsTail(c: char, v: string, u: string, tail: seq<string>, sep: char)
    requires c != sep
    requires Split(v, sep) == Split(u, sep) + tail
    ensures Split([c] + v, sep) == Split([c] + u, sep) + tail
  {
    var su := Split(u, sep);
    var sv := Split(v, sep);
    SplitCons(c, v, sep);
    SplitCons(c, u, sep);
    assert sv[0] == su[0];
    assert sv[1..] == su[1..] + tail;
    ConsAppend(c, sv[0], su[0], sv[1..], su[1..], tail);
  }

  /** A separator-free string is a single piece. */
  lemma SplitFree(p: string, sep: char)
    requires sep !in p
    ensures Split(p, sep) == [p]
  {
    SplitFreePrefix(p, "", sep);
    assert p + "" == p;
  }

  /** Joining a non-empty list of separator-free pieces and splitting the
      result gives the list back. */
  lemma {:induction false} SplitJoin(parts: seq<string>, sep: char)
    requires |parts| > 0
    requires forall i :: 0 <= i < |parts| ==> sep !in parts[i]
    ensures Split(Join(parts, sep), sep) == parts
    decreases |parts|
  {
    if |parts| == 1 {
      SplitFree(parts[0], sep);
    } else {
      SplitJoin(parts[1..], sep);
      SplitAcrossSeparator(parts[0], Join(parts[1..], sep), sep);
      SplitFree(parts[0], sep);
      assert [parts[0]] + parts[1..] == parts;
    }
  }

  /** The recursive containment test agrees with the positional one: `t`
      is contained in `s` exactly when it occurs at some index. */
  lemma {:induction false} ContainsIffOccurs(s: string, t: string)
    ensures Contains(s, t) <==> exists i :: OccursAt(s, t, i)
    decreases |s|
  {
    if exists i :: OccursAt(s, t, i) {
      var i :| OccursAt(s, t, i);
      if i == 0 {
        assert IsPrefix(t, s);
      } else {
        assert |s| > 0;
        assert s[1..][i - 1..i - 1 + |t|] == s[i..i + |t|];
        assert OccursAt(s[1..], t, i - 1);
        ContainsIffOccurs(s[1..], t);
        assert Contains(s[1..], t);
      }
    }
    if Contains(s, t) {
      if IsPrefix(t, s) {
        assert OccursAt(s, t, 0);
      } else {
        ContainsIffOccurs(s[1..], t);
        var i :| OccursAt(s[1..], t, i);
        assert s[1..][i..i + |t|] == s[i + 1..i + 1 + |t|];
        assert OccursAt(s, t, i + 1);
      }
    }
  }

  /** Every character of a contained string is a character of the
      containing one. */
  lemma ContainedChars(s: string, t: string)
    requires Contains(s, t)
    ensures forall ch :: ch in t ==> ch in s
  {
    ContainsIffOccurs(s, t);
    var i :| OccursAt(s, t, i);
    forall ch | ch in t
      ensures ch in s
    {
      var k :| 0 <= k < |t| && t[k] == ch;
      assert s[i + k] == t[k];
    }
  }

  /** The first piece of a split is a prefix of the string. */
  lemma {:induction false} FirstPieceIsPrefix(s: string, sep: char)
    ensures IsPrefix(Split(s, sep)[0], s)
    decreases |s|
  {
    if |s| > 0 && s[0] != sep {
      FirstPieceIsPrefix(s[1..], sep);
      var r0 := Split(s[1..], sep)[0];
      assert s[..1 + |r0|] == [s[0]] + s[1..][..|r0|];
    }
  }

  /** Every piece of a split occurs in the string it came from. */
  lemma {:induction false} PiecesAreContained(s: string, sep: char)
    ensures forall i :: 0 <= i < |Split(s, sep)| ==> Contains(s, Split(s, sep)[i])
    decreases |s|
  {
    var parts := Split(s, sep);
    if |s| == 0 {
      assert IsPrefix("", s);
    } else {
      var rest := Split(s[1..], sep);
      PiecesAreContained(s[1..], sep);
      forall i | 0 <= i < |parts|
        ensures Contains(s, parts[i])
      {
        if s[0] == sep {
          if i == 0 {
            assert IsPrefix(parts[0], s);
          } else {
            assert parts[i] == rest[i - 1];
          }
        } else {
          if i == 0 {
            FirstPieceIsPrefix(s, sep);
          } else {
            assert parts[i] == rest[i];
          }
        }
      }
    }
  }

  /** Every character of a joined string is the separator or a character
      of one of the pieces. */
  lemma {:induction false} JoinChars(parts: seq<string>, sep: char)
    ensures forall ch :: ch in Join(parts, sep) ==>
      ch == sep || exists i :: 0 <= i < |parts| && ch in parts[i]
    decreases |parts|
  {
    if |parts| > 1 {
      JoinChars(parts[1..], sep);
      forall ch | ch in Join(parts, sep)
        ensures ch == sep || exists i :: 0 <= i < |parts| && ch in parts[i]
      {
        if ch !in parts[0] && ch != sep {
          assert ch in Join(parts[1..], sep);
          var i :| 0 <= i < |parts[1..]| && ch in parts[1..][i];
          assert ch in parts[i + 1];
        }
      }
    } else if |parts| == 1 {
      assert forall ch :: ch in Join(parts, sep) ==> ch in parts[0];
    }
  }
}
