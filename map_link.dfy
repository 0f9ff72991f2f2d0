/** The Google Maps embed link shown on a cafe's page (`map_link` in main.py).
    The cafe's name and location are joined with a space, split into words on
    runs of whitespace, the words are joined with a percent-encoded space, every
    `&` becomes `and`, and the result is the `q=` parameter of a fixed embed URL. */
module MapLink {

  /** The fixed text before the query. */
  const Prefix: string := "https://maps.google.com/maps?q="
  /** The fixed text after the query. */
  const Suffix: string := "&t=&z=13&ie=UTF8&iwloc=&output=embed"
  /** What the words of the query are joined with. */
  const Sep: string := "%20"
  /** What every `&` is replaced by. */
  const Amp: string := "and"

  /** The characters that Python's `str.isspace()` accepts; `str.split()` with
      no argument splits on runs of these. */
  predicate IsSpace(c: char)
  {
    || '\t' <= c <= '\r'
    || '\U{1C}' <= c <= ' '
    || c == '\U{85}' || c == '\U{A0}' || c == '\U{1680}'
    || '\U{2000}' <= c <= '\U{200A}'
    || c == '\U{2028}' || c == '\U{2029}' || c == '\U{202F}' || c == '\U{205F}'
    || c == '\U{3000}'
  }

  predicate NoSpace(s: string)
  {
    forall i :: 0 <= i < |s| ==> !IsSpace(s[i])
  }

  predicate AllSpace(s: string)
  {
    forall i :: 0 <= i < |s| ==> IsSpace(s[i])
  }

  /** A word as `str.split()` yields it: not empty, no whitespace in it. */
  predicate IsWord(w: string)
  {
    w != [] && NoSpace(w)
  }

  predicate AllWords(ws: seq<string>)
  {
    forall k :: 0 <= k < |ws| ==> IsWord(ws[k])
  }

  /** Length of the run of non-whitespace characters that `s` starts with. */
  function WordEnd(s: string): (n: nat)
    ensures n <= |s|
    ensures NoSpace(s[..n])
    ensures n < |s| ==> IsSpace(s[n])
    ensures s != [] && !IsSpace(s[0]) ==> n >= 1
  {
    if s == [] || IsSpace(s[0]) then 0
    else
      var m := WordEnd(s[1..]);
      assert s[..m + 1] == [s[0]] + s[1..][..m];
      1 + m
  }

  /** Python's `s.split()`: the maximal runs of non-whitespace characters of `s`,
      in order. */
  function Split(s: string): (words: seq<string>)
    ensures AllWords(words)
    decreases |s|
  {
    if s == [] then []
    else if IsSpace(s[0]) then Split(s[1..])
    else
      var n := WordEnd(s);
      [s[..n]] + Split(s[n..])
  }

  /** Python's `sep.join(words)`. */
  function Join(words: seq<string>, sep: string): string
  {
    if words == [] then []
    else if |words| == 1 then words[0]
    else words[0] + sep + Join(words[1..], sep)
  }

  /** Python's `s.replace("&", "and")`. */
  function ReplaceAmp(s: string): (r: string)
    ensures '&' !in r
    ensures |r| >= |s|
    ensures NoSpace(s) ==> NoSpace(r)
    ensures '&' !in s ==> r == s
  {
    if s == [] then []
    else (if s[0] == '&' then Amp else [s[0]]) + ReplaceAmp(s[1..])
  }

  /** `ReplaceAmp` applied to every word. */
  function ReplaceEach(ws: seq<string>): (rs: seq<string>)
    ensures |rs| == |ws|
    ensures forall k :: 0 <= k < |ws| ==> rs[k] == ReplaceAmp(ws[k])
  {
    if ws == [] then [] else [ReplaceAmp(ws[0])] + ReplaceEach(ws[1..])
  }

  /** The query part of the link (main.py:185). */
  function Query(name: string, loc: string): string
  {
    ReplaceAmp(Join(Split(name + " " + loc), Sep))
  }

  /** `map_link(name, loc)` (main.py:184-188). */
  function Link(name: string, loc: string): (link: string)
    ensures |link| == |Prefix| + |Query(name, loc)| + |Suffix|
    ensures link[..|Prefix|] == Prefix
    ensures link[|link| - |Suffix|..] == Suffix
    ensures link[|Prefix|..|link| - |Suffix|] == Query(name, loc)
  {
    Prefix + Query(name, loc) + Suffix
  }

  // ---------------------------------------------------------------------------
  // Splitting

  /** Whitespace at the front of a string yields no word. */
  lemma {:induction false} SplitLeadingSpace(w: string, s: string)
    requires AllSpace(w)
    ensures Split(w + s) == Split(s)
    decreases |w|
  {
    if w == [] {
      assert w + s == s;
    } else {
      assert (w + s)[0] == w[0] && (w + s)[1..] == w[1..] + s;
      assert AllSpace(w[1..]) by {
        forall i | 0 <= i < |w| - 1 ensures IsSpace(w[1..][i]) {
          assert w[1..][i] == w[i + 1];
        }
      }
      SplitLeadingSpace(w[1..], s);
    }
  }

  /** A word that ends inside `a`, or right where a whitespace character follows
      `a`, is not lengthened by what follows. */
  lemma {:induction false} WordEndAppend(a: string, t: string)
    requires WordEnd(a) < |a| || (t != [] && IsSpace(t[0]))
    ensures WordEnd(a + t) == WordEnd(a)
    decreases |a|
  {
    if a == [] {
      assert (a + t)[0] == t[0];
    } else if !IsSpace(a[0]) {
      assert (a + t)[1..] == a[1..] + t;
      WordEndAppend(a[1..], t);
    }
  }

  /** A non-empty run of whitespace separates the words before it from those
      after it: `(a + w + b).split() == a.split() + b.split()`. */
  lemma {:induction false} SplitSeparated(a: string, w: string, b: string)
    requires w != [] && AllSpace(w)
    ensures Split(a + w + b) == Split(a) + Split(b)
    decreases |a|
  {
    var s := a + w + b;
    if a == [] {
      assert s == w + b;
      SplitLeadingSpace(w, b);
    } else if IsSpace(a[0]) {
      assert s[1..] == a[1..] + w + b;
      SplitSeparated(a[1..], w, b);
    } else {
      var n := WordEnd(a);
      WordEndAppend(a, w + b);
      assert s == a + (w + b);
      assert s[..n] == a[..n];
      assert s[n..] == a[n..] + w + b;
      SplitSeparated(a[n..], w, b);
    }
  }

  /** The words of `name + " " + loc` are those of `name` followed by those of
      `loc` (main.py:185). */
  lemma SplitNameAndLocation(name: string, loc: string)
    ensures Split(name + " " + loc) == Split(name) + Split(loc)
  {
    SplitSeparated(name, " ", loc);
  }

  /** A string yields no words exactly when it is all whitespace. */
  lemma {:induction false} SplitEmptyIff(s: string)
    ensures Split(s) == [] <==> AllSpace(s)
    decreases |s|
  {
    if s != [] && IsSpace(s[0]) {
      SplitEmptyIff(s[1..]);
      assert AllSpace(s[1..]) ==> AllSpace(s) by {
        if AllSpace(s[1..]) {
          forall i | 0 <= i < |s| ensures IsSpace(s[i]) {
            if i > 0 { assert s[i] == s[1..][i - 1]; }
          }
        }
      }
    }
  }

  /** Whitespace around a string changes none of its words. */
  lemma SplitIgnoresPadding(w1: string, s: string, w2: string)
    requires AllSpace(w1) && AllSpace(w2)
    ensures Split(w1 + s + w2) == Split(s)
  {
    SplitLeadingSpace(w1, s + w2);
    assert w1 + s + w2 == w1 + (s + w2);
    if w2 == [] {
      assert s + w2 == s;
    } else {
      SplitSeparated(s, w2, []);
      assert s + w2 + [] == s + w2;
    }
  }

  /** Any non-empty run of whitespace splits like a single space. */
  lemma SplitCollapsesSpace(a: string, w: string, b: string)
    requires w != [] && AllSpace(w)
    ensures Split(a + w + b) == Split(a + " " + b)
  {
    SplitSeparated(a, w, b);
    SplitSeparated(a, " ", b);
  }

  /** Splitting undoes joining with a space: `" ".join(ws).split() == ws` for
      words without whitespace. */
  lemma {:induction false} SplitJoinRoundTrip(ws: seq<string>)
    requires AllWords(ws)
    ensures Split(Join(ws, " ")) == ws
    decreases |ws|
  {
    if ws == [] {
    } else if |ws| == 1 {
      SplitOfWord(ws[0]);
    } else {
      assert AllWords(ws[1..]) by {
        forall k | 0 <= k < |ws| - 1 ensures IsWord(ws[1..][k]) {
          assert ws[1..][k] == ws[k + 1];
        }
      }
      SplitJoinRoundTrip(ws[1..]);
      SplitSeparated(ws[0], " ", Join(ws[1..], " "));
      SplitOfWord(ws[0]);
      assert ws == [ws[0]] + ws[1..];
    }
  }

  /** A single word splits into itself. */
  lemma SplitOfWord(w: string)
    requires IsWord(w)
    ensures Split(w) == [w]
  {
    WordEndOfWord(w);
    assert w[..|w|] == w;
    assert w[|w|..] == [];
  }

  lemma WordEndOfWord(w: string)
    requires NoSpace(w)
    ensures WordEnd(w) == |w|
  {
  }

  /** `s` with its whitespace characters taken out. */
  function RemoveSpace(s: string): (r: string)
    ensures NoSpace(r)
    ensures |r| <= |s|
  {
    if s == [] then []
    else (if IsSpace(s[0]) then [] else [s[0]]) + RemoveSpace(s[1..])
  }

  /** Concatenation of a sequence of strings. */
  function Concat(ws: seq<string>): string
  {
    if ws == [] then [] else ws[0] + Concat(ws[1..])
  }

  lemma {:induction false} RemoveSpaceAppend(a: string, b: string)
    ensures RemoveSpace(a + b) == RemoveSpace(a) + RemoveSpace(b)
    decreases |a|
  {
    if a == [] {
      assert a + b == b;
    } else {
      assert (a + b)[0] == a[0] && (a + b)[1..] == a[1..] + b;
      RemoveSpaceAppend(a[1..], b);
    }
  }

  lemma {:induction false} RemoveSpaceOfNoSpace(s: string)
    requires NoSpace(s)
    ensures RemoveSpace(s) == s
    decreases |s|
  {
    if s != [] {
      assert NoSpace(s[1..]) by {
        forall i | 0 <= i < |s| - 1 ensures !IsSpace(s[1..][i]) {
          assert s[1..][i] == s[i + 1];
        }
      }
      RemoveSpaceOfNoSpace(s[1..]);
      assert s == [s[0]] + s[1..];
    }
  }

  /** The words of `s`, put back together, are exactly the non-whitespace
      characters of `s` in order: splitting loses only whitespace. */
  lemma {:induction false} ConcatSplit(s: string)
    ensures Concat(Split(s)) == RemoveSpace(s)
    decreases |s|
  {
    if s == [] {
    } else if IsSpace(s[0]) {
      ConcatSplit(s[1..]);
    } else {
      var n := WordEnd(s);
      ConcatSplit(s[n..]);
      assert s == s[..n] + s[n..];
      RemoveSpaceAppend(s[..n], s[n..]);
      RemoveSpaceOfNoSpace(s[..n]);
      var ws := Split(s);
      assert ws[0] == s[..n] && ws[1..] == Split(s[n..]);
    }
  }

  // ---------------------------------------------------------------------------
  // Joining and replacing

  /** Joining words without whitespace with a separator without whitespace gives
      a string without whitespace. */
  lemma {:induction false} JoinNoSpace(ws: seq<string>, sep: string)
    requires forall k :: 0 <= k < |ws| ==> NoSpace(ws[k])
    requires NoSpace(sep)
    ensures NoSpace(Join(ws, sep))
    decreases |ws|
  {
    if |ws| > 1 {
      JoinNoSpace(ws[1..], sep);
      var r := Join(ws[1..], sep);
      assert NoSpace(ws[0] + sep + r) by {
        forall i | 0 <= i < |ws[0] + sep + r| ensures !IsSpace((ws[0] + sep + r)[i]) {
          if i < |ws[0]| {
          } else if i < |ws[0]| + |sep| {
            assert (ws[0] + sep + r)[i] == sep[i - |ws[0]|];
          } else {
            assert (ws[0] + sep + r)[i] == r[i - |ws[0]| - |sep|];
          }
        }
      }
    }
  }

  /** The join is at least as long as its first word. */
  lemma JoinCoversFirst(ws: seq<string>, sep: string)
    requires ws != []
    ensures |Join(ws, sep)| >= |ws[0]|
  {
  }

  /** Replacing `&` distributes over concatenation. */
  lemma {:induction false} ReplaceAmpAppend(a: string, b: string)
    ensures ReplaceAmp(a + b) == ReplaceAmp(a) + ReplaceAmp(b)
    decreases |a|
  {
    if a == [] {
      assert a + b == b;
    } else {
      assert (a + b)[0] == a[0] && (a + b)[1..] == a[1..] + b;
      ReplaceAmpAppend(a[1..], b);
    }
  }

  /** Replacing `&` in a joined string is replacing it in every word and in the
      separator. */
  lemma {:induction false} ReplaceAmpJoin(ws: seq<string>, sep: string)
    ensures ReplaceAmp(Join(ws, sep)) == Join(ReplaceEach(ws), ReplaceAmp(sep))
    decreases |ws|
  {
    if |ws| > 1 {
      ReplaceAmpJoin(ws[1..], sep);
      ReplaceAmpAppend(ws[0] + sep, Join(ws[1..], sep));
      ReplaceAmpAppend(ws[0], sep);
      assert ReplaceEach(ws)[1..] == ReplaceEach(ws[1..]);
    }
  }

  // ---------------------------------------------------------------------------
  // The query and the link

  /** The query is the words of `name` followed by the words of `loc`, each
      with `&` replaced by `and`, joined by `%20` (main.py:185). */
  lemma QueryIsJoinedWords(name: string, loc: string)
    ensures Query(name, loc) == Join(ReplaceEach(Split(name) + Split(loc)), Sep)
  {
    SplitNameAndLocation(name, loc);
    ReplaceAmpJoin(Split(name) + Split(loc), Sep);
  }

  /** The query holds no whitespace character and no `&` (main.py:185). */
  lemma QueryIsClean(name: string, loc: string)
    ensures NoSpace(Query(name, loc))
    ensures '&' !in Query(name, loc)
  {
    FixedPartsHaveNoSpace();
    JoinNoSpace(Split(name + " " + loc), Sep);
  }

  /** The query is empty exactly when both the name and the location are empty
      or all whitespace (main.py:185). */
  lemma QueryEmptyIff(name: string, loc: string)
    ensures Query(name, loc) == [] <==> AllSpace(name) && AllSpace(loc)
  {
    SplitNameAndLocation(name, loc);
    SplitEmptyIff(name);
    SplitEmptyIff(loc);
    var ws := Split(name) + Split(loc);
    if ws != [] {
      JoinCoversFirst(ws, Sep);
      assert IsWord(ws[0]);
    }
  }

  /** Leading, trailing or repeated whitespace in the name or the location
      does not change the query: only the words count (main.py:185). */
  lemma QueryDependsOnlyOnWords(name: string, loc: string, name': string, loc': string)
    requires Split(name) == Split(name') && Split(loc) == Split(loc')
    ensures Query(name, loc) == Query(name', loc')
  {
    SplitNameAndLocation(name, loc);
    SplitNameAndLocation(name', loc');
  }

  /** Padding the name and the location with whitespace leaves the link as it
      was. */
  lemma LinkIgnoresPadding(w1: string, name: string, w2: string, w3: string, loc: string, w4: string)
    requires AllSpace(w1) && AllSpace(w2) && AllSpace(w3) && AllSpace(w4)
    ensures Link(w1 + name + w2, w3 + loc + w4) == Link(name, loc)
  {
    SplitIgnoresPadding(w1, name, w2);
    SplitIgnoresPadding(w3, loc, w4);
    QueryDependsOnlyOnWords(w1 + name + w2, w3 + loc + w4, name, loc);
  }

  /** The fixed parts of the link hold no whitespace. */
  lemma FixedPartsHaveNoSpace()
    ensures NoSpace(Prefix) && NoSpace(Suffix) && NoSpace(Sep)
  {
  }

  lemma NoSpaceAppend(a: string, b: string)
    requires NoSpace(a) && NoSpace(b)
    ensures NoSpace(a + b)
  {
  }

  /** The whole link holds no whitespace character, so it is usable as a URL
      whatever the cafe's name and location are. */
  lemma LinkHasNoSpace(name: string, loc: string)
    ensures NoSpace(Link(name, loc))
  {
    QueryIsClean(name, loc);
    FixedPartsHaveNoSpace();
    NoSpaceAppend(Prefix, Query(name, loc));
    NoSpaceAppend(Prefix + Query(name, loc), Suffix);
  }
}
