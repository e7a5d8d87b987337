/** Text split at a separator, and put together again. */
module Fields {

  function Split(s: string, sep: char): (fs: seq<string>)
    ensures fs != []
  {
    if s == "" then [""]
    else
      var fs, c := Split(s[..|s| - 1], sep), s[|s| - 1];
      if c == sep then fs + [""] else fs[|fs| - 1 := fs[|fs| - 1] + [c]]
  }

  function Join(fs: seq<string>, sep: char): string {
    if fs == [] then ""
    else if |fs| == 1 then fs[0]
    else Join(fs[..|fs| - 1], sep) + [sep] + fs[|fs| - 1]
  }

  lemma SplitSnoc(s: string, c: char, sep: char)
    ensures var fs := Split(s, sep);
      Split(s + [c], sep) == if c == sep then fs + [""] else fs[|fs| - 1 := fs[|fs| - 1] + [c]]
  {
    assert (s + [c])[..|s|] == s;
  }

  lemma JoinSnoc(fs: seq<string>, f: string, sep: char)
    requires fs != []
    ensures Join(fs + [f], sep) == Join(fs, sep) + [sep] + f
  {
    assert (fs + [f])[..|fs|] == fs;
  }

  lemma JoinLast(fs: seq<string>, f: string, c: char, sep: char)
    ensures Join(fs + [f + [c]], sep) == Join(fs + [f], sep) + [c]
  {
    if fs != [] {
      JoinSnoc(fs, f, sep);
      JoinSnoc(fs, f + [c], sep);
    }
  }

  lemma {:induction false} JoinOfSplit(s: string, sep: char)
    ensures Join(Split(s, sep), sep) == s
  {
    if s != "" {
      var t, c := s[..|s| - 1], s[|s| - 1];
      JoinOfSplit(t, sep);
      var fs := Split(t, sep);
      assert t + [c] == s;
      SplitSnoc(t, c, sep);
      hide Split, Join;
      if c == sep {
        JoinSnoc(fs, "", sep);
      } else {
        var init, f := fs[..|fs| - 1], fs[|fs| - 1];
        assert fs == init + [f];
        assert Split(s, sep) == init + [f + [c]];
        JoinLast(init, f, c, sep);
      }
    }
  }

  lemma {:induction false} SplitAppend(s: string, f: string, sep: char)
    requires sep !in f
    ensures var fs := Split(s, sep); Split(s + f, sep) == fs[|fs| - 1 := fs[|fs| - 1] + f]
  {
    hide Split;
    var last := Split(s, sep)[|Split(s, sep)| - 1];
    if f == "" {
      assert s + f == s && last + f == last;
    } else {
      var g, c := f[..|f| - 1], f[|f| - 1];
      SplitAppend(s, g, sep);
      assert s + f == s + g + [c];
      SplitSnoc(s + g, c, sep);
      assert last + f == last + g + [c];
    }
  }

  lemma {:induction false} SplitOfJoin(fs: seq<string>, sep: char)
    requires fs != [] && forall f | f in fs :: sep !in f
    ensures Split(Join(fs, sep), sep) == fs
  {
    if |fs| == 1 {
      SplitWhole(fs[0], sep);
    } else {
      hide *;
      var init, f := fs[..|fs| - 1], fs[|fs| - 1];
      assert fs == init + [f] && f in fs && forall x | x in init :: x in fs;
      SplitOfJoin(init, sep);
      JoinSnoc(init, f, sep);
      SplitConcat(Join(init, sep), f, sep);
      SplitWhole(f, sep);
    }
  }

  lemma {:induction false} FieldsHaveNoSeparator(s: string, sep: char)
    ensures forall f | f in Split(s, sep) :: sep !in f
  {
    if s != "" {
      FieldsHaveNoSeparator(s[..|s| - 1], sep);
    }
  }

  /** A separator splits a text into what comes before and what comes after. */
  lemma {:induction false} SplitConcat(a: string, b: string, sep: char)
    ensures Split(a + [sep] + b, sep) == Split(a, sep) + Split(b, sep)
  {
    hide Split;
    if b == "" {
      assert a + [sep] + b == a + [sep];
      SplitSnoc(a, sep, sep);
      SplitNothing(sep);
    } else {
      var c, d := b[..|b| - 1], b[|b| - 1];
      SplitConcat(a, c, sep);
      assert a + [sep] + b == a + [sep] + c + [d];
      assert b == c + [d];
      SplitSnoc(a + [sep] + c, d, sep);
      SplitSnoc(c, d, sep);
    }
  }

  lemma SplitNothing(sep: char)
    ensures Split("", sep) == [""]
  {}

  lemma SplitWhole(f: string, sep: char)
    requires sep !in f
    ensures Split(f, sep) == [f]
  {
    SplitAppend("", f, sep);
    assert "" + f == f;
  }

  lemma SplitHead(f: string, b: string, sep: char)
    requires sep !in f
    ensures Split(f + [sep] + b, sep) == [f] + Split(b, sep)
  {
    SplitConcat(f, b, sep);
    SplitWhole(f, sep);
  }
}
