/**
 * The on-disk format of the flat-file duplicate filter: one fingerprint per
 * line, each followed by "\n". Reading iterates over the file's lines (each
 * keeping its "\n") and strips them; closing writes the in-memory set sorted
 * with Python's string order. The round trip lemma says why a close followed
 * by an open reloads exactly the same set.
 */
module FlatFile {
  import opened PyStr

  // ---------------------------------------------------------------------
  // Python's `<` on str: lexicographic order of code points

  predicate Less(a: string, b: string)
    decreases |a|
  {
    if a == [] then b != []
    else if b == [] then false
    else if a[0] != b[0] then a[0] < b[0]
    else Less(a[1..], b[1..])
  }

  lemma {:induction false} LessIrreflexive(a: string)
    ensures !Less(a, a)
    decreases |a|
  {
    if a != [] {
      LessIrreflexive(a[1..]);
    }
  }

  lemma {:induction false} LessTransitive(a: string, b: string, c: string)
    requires Less(a, b) && Less(b, c)
    ensures Less(a, c)
    decreases |a|
  {
    if a != [] && b != [] && c != [] && a[0] == b[0] == c[0] {
      LessTransitive(a[1..], b[1..], c[1..]);
    }
  }

  lemma {:induction false} LessTotal(a: string, b: string)
    requires a != b
    ensures Less(a, b) || Less(b, a)
    decreases |a|
  {
    if a != [] && b != [] && a[0] == b[0] {
      assert a == [a[0]] + a[1..] && b == [b[0]] + b[1..];
      LessTotal(a[1..], b[1..]);
    }
  }

  lemma LessAsymmetric(a: string, b: string)
    requires Less(a, b)
    ensures !Less(b, a)
  {
    if Less(b, a) {
      LessTransitive(a, b, a);
      LessIrreflexive(a);
    }
  }

  ghost predicate IsLeast(m: string, s: set<string>) {
    m in s && forall x :: x in s && x != m ==> Less(m, x)
  }

  lemma {:induction false} LeastExists(s: set<string>)
    requires s != {}
    ensures exists m :: IsLeast(m, s)
    decreases s
  {
    var y :| y in s;
    if s != {y} {
      LeastExists(s - {y});
      var m :| IsLeast(m, s - {y});
      LessTotal(m, y);
      if Less(m, y) {
        assert IsLeast(m, s);
      } else {
        forall x | x in s && x != y ensures Less(y, x) {
          if x != m {
            LessTransitive(y, m, x);
          }
        }
        assert IsLeast(y, s);
      }
    } else {
      assert IsLeast(y, s);
    }
  }

  lemma LeastUnique(m: string, n: string, s: set<string>)
    requires IsLeast(m, s) && IsLeast(n, s)
    ensures m == n
  {
    if m != n {
      LessAsymmetric(m, n);
    }
  }

  ghost function Least(s: set<string>): (m: string)
    requires s != {}
    ensures IsLeast(m, s)
  {
    LeastExists(s);
    var m :| IsLeast(m, s);
    m
  }

  /** `sorted(s)`: the elements of `s`, least first. */
  ghost function Sorted(s: set<string>): (r: seq<string>)
    ensures |r| == |s|
    decreases s
  {
    if s == {} then [] else var m := Least(s); [m] + Sorted(s - {m})
  }

  /** The listing holds exactly the elements of the set. */
  lemma {:induction false} SortedMembers(s: set<string>)
    ensures forall x :: x in Sorted(s) <==> x in s
    decreases s
  {
    if s != {} {
      SortedMembers(s - {Least(s)});
    }
  }

  /** The listing is strictly increasing, so it repeats no element. */
  lemma {:induction false} SortedIncreasing(s: set<string>)
    ensures forall i, j :: 0 <= i < j < |Sorted(s)| ==> Less(Sorted(s)[i], Sorted(s)[j])
    decreases s
  {
    if s != {} {
      var m := Least(s);
      var rest := Sorted(s - {m});
      SortedIncreasing(s - {m});
      SortedMembers(s - {m});
      var r := Sorted(s);
      assert r == [m] + rest;
      forall i, j | 0 <= i < j < |r| ensures Less(r[i], r[j]) {
        if i == 0 {
          assert rest[j - 1] in Sorted(s - {m});
          assert r[j] == rest[j - 1] && rest[j - 1] in s && rest[j - 1] != m;
        } else {
          assert 0 <= i - 1 < j - 1 < |rest|;
          assert r[i] == rest[i - 1] && r[j] == rest[j - 1];
        }
      }
    }
  }

  /** Python's `sorted` yields the one strictly increasing listing of a set. */
  lemma SortedUnfold(s: set<string>, m: string)
    requires IsLeast(m, s)
    ensures Sorted(s) == [m] + Sorted(s - {m})
  {
    LeastUnique(m, Least(s), s);
  }

  /** Writing a set sorted starts with its least element's line: what is
      written so far, followed by the rest sorted, stays the same text when
      the least element moves from the rest to what is written. */
  lemma SerializeSortedStep(written: string, s: set<string>, m: string)
    requires IsLeast(m, s)
    ensures (written + Line(m)) + Serialize(Sorted(s - {m})) == written + Serialize(Sorted(s))
  {
    SortedUnfold(s, m);
    SerializeCons(m, Sorted(s - {m}));
  }

  /** Selects the least element by scanning the set once. */
  method LeastOf(s: set<string>) returns (m: string)
    requires s != {}
    ensures IsLeast(m, s)
  {
    m :| m in s;
    var rest := s - {m};
    while rest != {}
      invariant m in s && m !in rest && rest <= s
      invariant forall x :: x in s && x !in rest && x != m ==> Less(m, x)
      decreases rest
    {
      var y :| y in rest;
      LessTotal(m, y);
      if Less(y, m) {
        forall x | x in s && x !in rest && x != y ensures Less(y, x) {
          if x != m {
            LessTransitive(y, m, x);
          }
        }
        m := y;
      }
      rest := rest - {y};
    }
  }

  // ---------------------------------------------------------------------
  // Lines

  /** `f"{fp}\n"` */
  function Line(fp: string): string {
    fp + "\n"
  }

  /** The file text that writing `fps` line by line produces. */
  function Serialize(fps: seq<string>): (c: string)
    ensures c == [] || c[|c| - 1] == '\n'
  {
    if fps == [] then [] else Serialize(fps[..|fps| - 1]) + Line(fps[|fps| - 1])
  }

  /** Writing `fp` first and then `rest` gives `fp`'s line followed by
      `rest`'s lines. */
  lemma {:induction false} SerializeCons(fp: string, rest: seq<string>)
    ensures Serialize([fp] + rest) == Line(fp) + Serialize(rest)
  {
    if rest != [] {
      var init := rest[..|rest| - 1];
      SerializeCons(fp, init);
      assert ([fp] + rest)[..|rest|] == [fp] + init;
    } else {
      assert [fp][..0] == [];
    }
  }

  /** Length of the first line of `c`, its "\n" included when present. */
  function LineLength(c: string): (k: nat)
    requires c != []
    ensures 0 < k <= |c|
    ensures k < |c| ==> c[k - 1] == '\n'
    ensures forall i :: 0 <= i < k - 1 ==> c[i] != '\n'
  {
    if c[0] == '\n' || |c| == 1 then 1 else 1 + LineLength(c[1..])
  }

  /** `for line in f`: the lines of the file, each with its "\n" except
      possibly the last. */
  function Lines(c: string): (ls: seq<string>)
    decreases |c|
  {
    if c == [] then [] else [c[..LineLength(c)]] + Lines(c[LineLength(c)..])
  }

  /** `set(line.strip() for line in lines)` */
  function StripAll(lines: seq<string>): set<string> {
    if lines == [] then {} else StripAll(lines[..|lines| - 1]) + {Strip(lines[|lines| - 1])}
  }

  /** What `open` loads from file text `c`. */
  function Load(c: string): set<string> {
    StripAll(Lines(c))
  }

  /** A string that one line of the file stores faithfully: it spans no line
      break and has no surrounding whitespace for `strip` to remove. */
  predicate IsLine(fp: string) {
    '\n' !in fp && (fp == [] || (!IsSpace(fp[0]) && !IsSpace(fp[|fp| - 1])))
  }

  lemma NoSpaceIsLine(fp: string)
    requires NoSpace(fp)
    ensures IsLine(fp)
  {
    assert IsSpace('\n');
  }

  /** `strip` returns a line-shaped string unchanged, also with its "\n". */
  lemma StripLine(fp: string)
    requires IsLine(fp)
    ensures Strip(fp) == fp
    ensures Strip(Line(fp)) == fp
  {
    if fp != [] {
      assert LStrip(fp) == fp;
      assert RStrip(fp) == fp;
    }
    StripAppendSpace(fp, '\n');
  }

  lemma {:induction false} LineLengthExtend(c: string, d: string)
    requires c != [] && c[LineLength(c) - 1] == '\n'
    ensures LineLength(c + d) == LineLength(c)
  {
    if c[0] != '\n' && |c| != 1 {
      assert (c + d)[1..] == c[1..] + d;
      LineLengthExtend(c[1..], d);
    }
  }

  lemma {:induction false} LineLengthOfLine(fp: string)
    requires '\n' !in fp
    ensures LineLength(Line(fp)) == |Line(fp)|
  {
    if fp != [] {
      assert Line(fp)[1..] == Line(fp[1..]);
      LineLengthOfLine(fp[1..]);
    }
  }

  /** Appending one line to a file that ends at a line break adds exactly
      that line to what iteration yields. */
  lemma {:induction false} LinesAppendLine(c: string, fp: string)
    requires c == [] || c[|c| - 1] == '\n'
    requires '\n' !in fp
    ensures Lines(c + Line(fp)) == Lines(c) + [Line(fp)]
    decreases |c|
  {
    if c == [] {
      assert c + Line(fp) == Line(fp);
      LinesOfLine(fp);
    } else {
      var k := LineLength(c);
      var d := c + Line(fp);
      LineLengthExtend(c, Line(fp));
      assert d[..k] == c[..k];
      assert d[k..] == c[k..] + Line(fp);
      assert Lines(d) == [c[..k]] + Lines(c[k..] + Line(fp));
      LinesAppendLine(c[k..], fp);
      ConsSnoc(c[..k], Lines(c[k..]), Line(fp));
    }
  }

  lemma ConsSnoc<T>(x: T, xs: seq<T>, y: T)
    ensures [x] + (xs + [y]) == ([x] + xs) + [y]
  {
  }

  /** A file holding one line yields that line. */
  lemma LinesOfLine(fp: string)
    requires '\n' !in fp
    ensures Lines(Line(fp)) == [Line(fp)]
  {
    LineLengthOfLine(fp);
    assert Line(fp)[..|Line(fp)|] == Line(fp);
    assert Line(fp)[|Line(fp)|..] == [];
  }

  /** What a reader finds after one more `request_seen` append. */
  lemma LoadAppendLine(c: string, fp: string)
    requires c == [] || c[|c| - 1] == '\n'
    requires IsLine(fp)
    ensures Load(c + Line(fp)) == Load(c) + {fp}
  {
    LinesAppendLine(c, fp);
    StripAllAppend(Lines(c), Line(fp));
    StripLine(fp);
  }


  /** A file that ends with a complete line still does after one more line
      is appended, and loads as one more fingerprint. */
  lemma AppendLineKeepsShape(before: string, fp: string, after: string)
    requires before == [] || before[|before| - 1] == '\n'
    requires IsLine(fp)
    requires after == before + Line(fp)
    ensures after[|after| - 1] == '\n'
    ensures Load(after) == Load(before) + {fp}
  {
    LoadAppendLine(before, fp);
    assert after[|after| - 1] == Line(fp)[|fp|];
  }

  lemma StripAllAppend(ls: seq<string>, l: string)
    ensures StripAll(ls + [l]) == StripAll(ls) + {Strip(l)}
  {
    assert (ls + [l])[..|ls|] == ls;
  }

  /** The strings of `fps` as a set. */
  function Elements(fps: seq<string>): (r: set<string>)
    ensures forall x :: x in r <==> x in fps
  {
    if fps == [] then {} else Elements(fps[..|fps| - 1]) + {fps[|fps| - 1]}
  }

  /** Reading a file written line by line gives back the written strings. */
  lemma {:induction false} LoadSerialize(fps: seq<string>)
    requires forall i :: 0 <= i < |fps| ==> IsLine(fps[i])
    ensures Load(Serialize(fps)) == Elements(fps)
  {
    if fps == [] {
      assert Lines([]) == [];
    } else {
      var init := fps[..|fps| - 1];
      var last := fps[|fps| - 1];
      var c := Serialize(init);
      assert Serialize(fps) == c + Line(last);
      assert Elements(fps) == Elements(init) + {last};
      LoadSerialize(init);
      LoadAppendLine(c, last);
    }
  }

  /** Close then open: the sorted rewrite reloads exactly the set. */
  lemma LoadSorted(s: set<string>)
    requires forall fp :: fp in s ==> IsLine(fp)
    ensures Load(Serialize(Sorted(s))) == s
  {
    var r := Sorted(s);
    SortedMembers(s);
    LoadSerialize(r);
    assert Elements(r) == s;
  }

  lemma StripIdempotent(s: string)
    ensures Strip(Strip(s)) == Strip(s)
  {
    var r := Strip(s);
    if r != [] {
      assert LStrip(r) == r;
      assert RStrip(r) == r;
    }
  }

  /** Every string a reader loads is one a line can hold. */
  lemma LoadGivesLines(c: string)
    ensures forall fp :: fp in Load(c) ==> IsLine(fp)
  {
    var ls := Lines(c);
    forall l | l in ls ensures IsLine(Strip(l)) {
      LineBreakOnlyLast(c, l);
      StrippedLineIsLine(l);
    }
    StripAllLines(ls);
  }

  lemma {:induction false} StripAllLines(ls: seq<string>)
    requires forall l :: l in ls ==> IsLine(Strip(l))
    ensures forall fp :: fp in StripAll(ls) ==> IsLine(fp)
  {
    if ls != [] {
      StripAllLines(ls[..|ls| - 1]);
    }
  }

  lemma StrippedLineIsLine(l: string)
    requires forall i :: 0 <= i < |l| - 1 ==> l[i] != '\n'
    ensures IsLine(Strip(l))
  {
    StripShape(l);
  }

  lemma {:induction false} LineBreakOnlyLast(c: string, l: string)
    requires l in Lines(c)
    ensures forall i :: 0 <= i < |l| - 1 ==> l[i] != '\n'
    decreases |c|
  {
    if c != [] && l != c[..LineLength(c)] {
      LineBreakOnlyLast(c[LineLength(c)..], l);
    }
  }
}
