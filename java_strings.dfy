/**
 * The behaviour of the java.lang.String operations the fetch decoder relies on:
 * `split("/")`, `trim()` and `toLowerCase()`.
 */
module JavaStrings {

  /** The pieces of s between '/' characters, leftmost first, empty pieces included. */
  function Fields(s: string): (r: seq<string>)
    ensures |r| >= 1
  {
    if s == [] then [[]]
    else
      var rest := Fields(s[1..]);
      if s[0] == '/' then [[]] + rest
      else [[s[0]] + rest[0]] + rest[1..]
  }

  /** The pieces glued back together with '/' between them. */
  function Join(pieces: seq<string>): string
    requires |pieces| >= 1
  {
    if |pieces| == 1 then pieces[0] else pieces[0] + "/" + Join(pieces[1..])
  }

  /** A run of n slashes. */
  function Slashes(n: nat): string
  {
    seq(n, i => '/')
  }

  /** Fields and Join are inverse: joining the pieces gives s back, and no piece holds a '/'. */
  lemma {:induction false} FieldsJoin(s: string)
    ensures Join(Fields(s)) == s
    ensures forall i :: 0 <= i < |Fields(s)| ==> '/' !in Fields(s)[i]
  {
    if s != [] {
      var rest := Fields(s[1..]);
      FieldsJoin(s[1..]);
      assert s == [s[0]] + s[1..];
      if s[0] != '/' {
        var r := Fields(s);
        assert r == [[s[0]] + rest[0]] + rest[1..];
        if |rest| > 1 {
          assert r[1..] == rest[1..];
          assert Join(rest) == rest[0] + "/" + Join(rest[1..]);
          assert Join(r) == ([s[0]] + rest[0]) + "/" + Join(rest[1..]);
        }
        forall i | 0 <= i < |r|
          ensures '/' !in r[i]
        {
          if i > 0 {
            assert r[i] == rest[i];
          }
        }
      } else {
        assert Fields(s) == [[]] + rest;
      }
    }
  }

  /** A string without '/' is a single field. */
  lemma {:induction false} FieldsOfSegment(x: string)
    requires '/' !in x
    ensures Fields(x) == [x]
  {
    if x != [] {
      assert x[0] in x;
      assert '/' !in x[1..] by {
        forall i | 0 <= i < |x[1..]| ensures x[1..][i] != '/' {
          assert x[1..][i] == x[i + 1];
        }
      }
      FieldsOfSegment(x[1..]);
      assert x == [x[0]] + x[1..];
    }
  }

  /** A '/' separates the fields on its left from those on its right. */
  lemma {:induction false} FieldsConcat(x: string, y: string)
    ensures Fields(x + "/" + y) == Fields(x) + Fields(y)
  {
    var s := x + "/" + y;
    if x == [] {
      assert s[0] == '/' && s[1..] == y;
    } else {
      assert s[0] == x[0] && s[1..] == x[1..] + "/" + y;
      FieldsConcat(x[1..], y);
    }
  }

  /** A run of n slashes has n + 1 fields, all empty. */
  lemma {:induction false} FieldsOfSlashes(n: nat)
    ensures |Fields(Slashes(n))| == n + 1
    ensures forall i :: 0 <= i < n + 1 ==> Fields(Slashes(n))[i] == []
  {
    if n > 0 {
      assert Slashes(n) == [] + "/" + Slashes(n - 1);
      FieldsConcat([], Slashes(n - 1));
      FieldsOfSlashes(n - 1);
    }
  }

  /** The pieces with the run of empty pieces at their end removed. */
  function DropTrailingEmpty(pieces: seq<string>): (r: seq<string>)
    ensures |r| <= |pieces| && r == pieces[..|r|]
    ensures forall i :: |r| <= i < |pieces| ==> pieces[i] == []
    ensures r != [] ==> r[|r| - 1] != []
  {
    if pieces == [] then []
    else if pieces[|pieces| - 1] == [] then DropTrailingEmpty(pieces[..|pieces| - 1])
    else pieces
  }

  /**
   * `s.split("/")`: the input itself when it holds no '/', and otherwise its
   * fields with the trailing empty ones dropped.
   */
  function Split(s: string): (r: seq<string>)
    ensures '/' !in s ==> r == [s]
    ensures '/' in s ==> |r| <= |Fields(s)| && r == Fields(s)[..|r|]
    ensures '/' in s ==> forall i :: |r| <= i < |Fields(s)| ==> Fields(s)[i] == []
    ensures '/' in s && r != [] ==> r[|r| - 1] != []
    ensures forall i :: 0 <= i < |r| ==> '/' !in r[i]
  {
    if '/' !in s then [s]
    else
      FieldsJoin(s);
      DropTrailingEmpty(Fields(s))
  }

  /** Joining pieces that are all empty gives one slash fewer than there are pieces. */
  lemma {:induction false} JoinOfEmpties(pieces: seq<string>)
    requires |pieces| >= 1
    requires forall i :: 0 <= i < |pieces| ==> pieces[i] == []
    ensures Join(pieces) == Slashes(|pieces| - 1)
  {
    if |pieces| > 1 {
      JoinOfEmpties(pieces[1..]);
      assert Slashes(|pieces| - 1) == [] + "/" + Slashes(|pieces| - 2);
    }
  }

  /** Empty pieces after the last one only add slashes at the end. */
  lemma {:induction false} JoinWithEmptyTail(kept: seq<string>, empties: seq<string>)
    requires |kept| >= 1
    requires forall i :: 0 <= i < |empties| ==> empties[i] == []
    ensures Join(kept + empties) == Join(kept) + Slashes(|empties|)
  {
    if |kept| == 1 {
      if empties == [] {
        assert kept + empties == kept;
      } else {
        JoinOfEmpties(empties);
        assert (kept + empties)[1..] == empties;
        assert "/" + Slashes(|empties| - 1) == Slashes(|empties|);
      }
    } else {
      JoinWithEmptyTail(kept[1..], empties);
      assert (kept + empties)[1..] == kept[1..] + empties;
    }
  }

  /**
   * Split loses nothing but trailing slashes: its pieces joined with '/'
   * and followed by the dropped slashes give the input back, and an empty
   * result comes only from a non-empty run of slashes.
   */
  lemma SplitRoundTrip(s: string)
    ensures |Split(s)| <= |Fields(s)|
    ensures Split(s) != [] ==> s == Join(Split(s)) + Slashes(|Fields(s)| - |Split(s)|)
    ensures Split(s) == [] ==> s != [] && forall i :: 0 <= i < |s| ==> s[i] == '/'
  {
    if '/' !in s {
      FieldsOfSegment(s);
      assert s + Slashes(0) == s;
    } else if Split(s) != [] {
      SplitKeptRoundTrip(s);
    } else {
      SplitEmptyIsSlashes(s);
    }
  }

  /** A non-empty split of a string holding '/' loses only the trailing slashes. */
  lemma SplitKeptRoundTrip(s: string)
    requires '/' in s && Split(s) != []
    ensures s == Join(Split(s)) + Slashes(|Fields(s)| - |Split(s)|)
  {
    var f := Fields(s);
    var r := Split(s);
    FieldsJoin(s);
    assert f == r + f[|r|..];
    JoinWithEmptyTail(r, f[|r|..]);
  }

  /** An empty split comes only from a non-empty run of slashes. */
  lemma SplitEmptyIsSlashes(s: string)
    requires Split(s) == []
    ensures s != [] && forall i :: 0 <= i < |s| ==> s[i] == '/'
  {
    var f := Fields(s);
    FieldsJoin(s);
    JoinOfEmpties(f);
  }

  /** `"/".split("/")` is empty: every piece is a trailing empty one. */
  lemma SplitOfSlash()
    ensures Split("/") == []
  {
    FieldsOfSlashes(1);
    assert "/" == Slashes(1);
  }

  /** `"a/b/".split("/")` drops the empty piece after the last slash. */
  lemma SplitDropsTrailingEmpty()
    ensures Split("a/b/") == ["a", "b"]
  {
    FieldsOfSegment("a");
    FieldsOfSegment("b");
    FieldsOfSegment("");
    FieldsConcat("b", "");
    FieldsConcat("a", "b/");
    assert "a/b/" == "a" + "/" + ("b" + "/" + "");
    assert Fields("a/b/") == ["a", "b", ""];
  }

  /** Slashes appended to x add that many empty fields after those of x. */
  lemma FieldsWithSlashes(x: string, n: nat)
    ensures Fields(x + Slashes(n)) == Fields(x) + Fields(Slashes(n))[1..]
  {
    if n == 0 {
      assert x + Slashes(0) == x;
    } else {
      assert x + Slashes(n) == x + "/" + Slashes(n - 1);
      FieldsConcat(x, Slashes(n - 1));
      assert Slashes(n) == [] + "/" + Slashes(n - 1);
      FieldsConcat([], Slashes(n - 1));
    }
  }

  /**
   * The only prefix of f that keeps its last non-empty piece and drops
   * nothing but empty pieces ends right after that piece.
   */
  lemma KeptUpToLastNonEmpty(f: seq<string>, m: nat, r: seq<string>)
    requires 0 < m <= |f| && f[m - 1] != [] && forall i :: m <= i < |f| ==> f[i] == []
    requires |r| <= |f| && r == f[..|r|]
    requires forall i :: |r| <= i < |f| ==> f[i] == []
    requires r != [] ==> r[|r| - 1] != []
    ensures r == f[..m]
  {
    if |r| > m {
      assert false;
    }
  }

  /**
   * Split ignores trailing slashes: when x holds a '/' and its last field
   * is non-empty, x followed by any run of slashes splits into the fields
   * of x.
   */
  lemma SplitDropsTrailingSlashes(x: string, n: nat)
    requires '/' in x && Fields(x)[|Fields(x)| - 1] != []
    ensures Split(x + Slashes(n)) == Fields(x)
  {
    var s := x + Slashes(n);
    var m := |Fields(x)|;
    FieldsWithSlashes(x, n);
    FieldsOfSlashes(n);
    var f := Fields(s);
    assert f[..m] == Fields(x);
    var j :| 0 <= j < |x| && x[j] == '/';
    assert s[j] == '/';
    KeptUpToLastNonEmpty(f, m, Split(s));
  }

  /**
   * A path ending in two slash-free segments, the last one non-empty, and
   * then any run of slashes, splits into the fields of what comes before
   * the two segments followed by the two.
   */
  lemma SplitOfPath(prefix: string, b: string, key: string, n: nat)
    requires '/' !in b && '/' !in key && key != []
    ensures Split(prefix + "/" + b + "/" + key + Slashes(n)) == Fields(prefix) + [b] + [key]
  {
    var url := prefix + "/" + b + "/" + key;
    FieldsOfPath(prefix, b, key);
    assert url[|prefix|] == '/';
    SplitDropsTrailingSlashes(url, n);
  }

  /** Two slash-free segments, the last one non-empty, and then any run of slashes split into the two. */
  lemma SplitOfPair(b: string, key: string, n: nat)
    requires '/' !in b && '/' !in key && key != []
    ensures Split(b + "/" + key + Slashes(n)) == [b, key]
  {
    var url := b + "/" + key;
    FieldsConcat(b, key);
    FieldsOfSegment(b);
    FieldsOfSegment(key);
    assert url[|b|] == '/';
    SplitDropsTrailingSlashes(url, n);
  }

  /** The fields of a path ending in two slash-free segments. */
  lemma FieldsOfPath(prefix: string, b: string, key: string)
    requires '/' !in b && '/' !in key
    ensures Fields(prefix + "/" + b + "/" + key) == Fields(prefix) + [b] + [key]
  {
    assert prefix + "/" + b + "/" + key == prefix + "/" + (b + "/" + key);
    FieldsConcat(prefix, b + "/" + key);
    FieldsConcat(b, key);
    FieldsOfSegment(b);
    FieldsOfSegment(key);
  }

  /** The characters `trim()` removes: every code point up to U+0020. */
  predicate IsTrimmed(c: char)
  {
    c <= ' '
  }

  /** s without its leading trimmable characters. */
  function TrimStart(s: string): (r: string)
    ensures |r| <= |s| && r == s[|s| - |r|..]
    ensures forall i :: 0 <= i < |s| - |r| ==> IsTrimmed(s[i])
    ensures r != [] ==> !IsTrimmed(r[0])
  {
    if s != [] && IsTrimmed(s[0]) then TrimStart(s[1..]) else s
  }

  /** s without its trailing trimmable characters. */
  function TrimEnd(s: string): (r: string)
    ensures |r| <= |s| && r == s[..|r|]
    ensures forall i :: |r| <= i < |s| ==> IsTrimmed(s[i])
    ensures r != [] ==> !IsTrimmed(r[|r| - 1])
  {
    if s != [] && IsTrimmed(s[|s| - 1]) then TrimEnd(s[..|s| - 1]) else s
  }

  /** `s.trim()`. */
  function Trim(s: string): string
  {
    TrimEnd(TrimStart(s))
  }

  /** Leading padding is removed up to the first non-trimmable character. */
  lemma {:induction false} TrimStartPadded(pad: string, rest: string)
    requires forall i :: 0 <= i < |pad| ==> IsTrimmed(pad[i])
    requires rest != [] && !IsTrimmed(rest[0])
    ensures TrimStart(pad + rest) == rest
  {
    if pad != [] {
      assert (pad + rest)[0] == pad[0];
      assert (pad + rest)[1..] == pad[1..] + rest;
      TrimStartPadded(pad[1..], rest);
    }
  }

  /**
   * Text ending in a non-trimmable character survives trailing trimming,
   * and is all that is left when only trimmable characters follow it.
   */
  lemma {:induction false} TrimEndKeeps(core: string, tail: string)
    requires core != [] && !IsTrimmed(core[|core| - 1])
    ensures core <= TrimEnd(core + tail)
    ensures (forall i :: 0 <= i < |tail| ==> IsTrimmed(tail[i])) ==> TrimEnd(core + tail) == core
  {
    var s := core + tail;
    if tail == [] {
      assert s == core;
    } else if IsTrimmed(tail[|tail| - 1]) {
      assert s[..|s| - 1] == core + tail[..|tail| - 1];
      TrimEndKeeps(core, tail[..|tail| - 1]);
    } else {
      assert s[|s| - 1] == tail[|tail| - 1];
    }
  }

  /**
   * Trimming strips exactly the padding: text that starts and ends with a
   * non-trimmable character survives at the front of the result, and is
   * the whole result when only trimmable characters follow it.
   */
  lemma TrimKeepsCore(pad: string, core: string, tail: string)
    requires forall i :: 0 <= i < |pad| ==> IsTrimmed(pad[i])
    requires core != [] && !IsTrimmed(core[0]) && !IsTrimmed(core[|core| - 1])
    ensures core <= Trim(pad + core + tail)
    ensures (forall i :: 0 <= i < |tail| ==> IsTrimmed(tail[i])) ==> Trim(pad + core + tail) == core
  {
    assert pad + core + tail == pad + (core + tail);
    TrimStartPadded(pad, core + tail);
    TrimEndKeeps(core, tail);
  }

  /** One character of `toLowerCase()`, for the ASCII letters. */
  function LowerChar(c: char): char
  {
    if 'A' <= c <= 'Z' then (c as int + 32) as char else c
  }

  /** `s.toLowerCase()` on ASCII text. */
  function ToLowerAscii(s: string): (r: string)
    ensures |r| == |s|
    ensures forall i :: 0 <= i < |s| ==> r[i] == LowerChar(s[i])
  {
    if s == [] then [] else [LowerChar(s[0])] + ToLowerAscii(s[1..])
  }

  /** Lower-casing a longer string keeps the lower-cased prefix in front. */
  lemma LowerKeepsPrefix(prefix: string, s: string)
    requires prefix <= s
    ensures ToLowerAscii(prefix) <= ToLowerAscii(s)
  {
    var lp, ls := ToLowerAscii(prefix), ToLowerAscii(s);
    assert forall i :: 0 <= i < |lp| ==> lp[i] == ls[i];
  }
}
