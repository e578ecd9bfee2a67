/**
 The path tokenizer `split` of src/common.cpp: a request target such as
 "/files/a.txt" becomes ["/", "files", "/", "a.txt"]: a "/" token before
 every non-empty '/'-separated field, and one more "/" when the target ends
 in a slash. Handlers read path parameters at fixed odd offsets.
 */
module Common {

  /** The '/'-separated fields of `s`, empty ones included, left to right. */
  function Fields(s: string): (r: seq<string>)
    ensures |r| >= 1
    decreases |s|
  {
    if s == [] then [[]]
    else
      var f := Fields(s[..|s| - 1]);
      var c := s[|s| - 1];
      if c == '/' then f + [[]] else f[..|f| - 1] + [f[|f| - 1] + [c]]
  }

  /** The fields joined back with '/' between them. */
  function Join(fs: seq<string>): string
    requires |fs| >= 1
  {
    if |fs| == 1 then fs[0] else Join(fs[..|fs| - 1]) + "/" + fs[|fs| - 1]
  }

  /** The fields hold no slash, and joining them with slashes gives back `s`. */
  lemma {:induction false} FieldsJoin(s: string)
    ensures Join(Fields(s)) == s
    ensures forall i :: 0 <= i < |Fields(s)| ==> '/' !in Fields(s)[i]
    decreases |s|
  {
    FieldsSlashFree(s);
    if s != [] {
      var p, c := s[..|s| - 1], s[|s| - 1];
      var f, g := Fields(p), Fields(s);
      FieldsJoin(p);
      assert s == p + [c];
      if c == '/' {
        assert g == f + [[]];
        assert g[..|g| - 1] == f;
        assert Join(g) == Join(f) + "/" + [];
      } else {
        var init := f[..|f| - 1];
        assert g == init + [f[|f| - 1] + [c]];
        if |f| > 1 {
          assert g[..|g| - 1] == init;
          assert Join(f) == Join(init) + "/" + f[|f| - 1];
          assert Join(g) == Join(init) + "/" + (f[|f| - 1] + [c]);
        } else {
          assert Join(f) == f[0];
        }
      }
    }
  }

  lemma {:induction false} FieldsSlashFree(s: string)
    ensures forall i :: 0 <= i < |Fields(s)| ==> '/' !in Fields(s)[i]
    decreases |s|
  {
    if s != [] {
      var p, c := s[..|s| - 1], s[|s| - 1];
      var f, g := Fields(p), Fields(s);
      FieldsSlashFree(p);
      forall i | 0 <= i < |g| ensures '/' !in g[i] {
        if i < |g| - 1 {
          assert g[i] == f[i];
        }
      }
    }
  }

  /** The non-empty members of `fs`, in order. */
  function NonEmpty(fs: seq<string>): (r: seq<string>)
    ensures forall i :: 0 <= i < |r| ==> r[i] != [] && r[i] in fs
    ensures forall i :: 0 <= i < |fs| && fs[i] != [] ==> fs[i] in r
  {
    if fs == [] then []
    else
      var init := NonEmpty(fs[..|fs| - 1]);
      var last := fs[|fs| - 1];
      assert forall x :: x in fs[..|fs| - 1] ==> x in fs;
      if last == [] then init else init + [last]
  }

  /** Keeping the non-empty fields keeps their order: it distributes over concatenation, and
      a single field is kept exactly when it is not empty. */
  lemma {:induction false} NonEmptyAppend(a: seq<string>, b: seq<string>)
    ensures NonEmpty(a + b) == NonEmpty(a) + NonEmpty(b)
    ensures forall x: string :: NonEmpty([x]) == (if x == [] then [] else [x])
    decreases |b|
  {
    forall x: string ensures NonEmpty([x]) == (if x == [] then [] else [x]) {
      assert [x][..0] == [];
    }
    if b == [] {
      assert a + b == a;
    } else {
      var init := b[..|b| - 1];
      assert (a + b)[..|a + b| - 1] == a + init;
      assert (a + b)[|a + b| - 1] == b[|b| - 1];
      NonEmptyAppend(a, init);
    }
  }

  /** A "/" token followed by each segment. */
  function Pairs(fs: seq<string>): seq<string> {
    if fs == [] then [] else Pairs(fs[..|fs| - 1]) + ["/", fs[|fs| - 1]]
  }

  lemma {:induction false} PairsLayout(fs: seq<string>)
    ensures |Pairs(fs)| == 2 * |fs|
    ensures forall i :: 0 <= i < |fs| ==> Pairs(fs)[2 * i] == "/" && Pairs(fs)[2 * i + 1] == fs[i]
  {
    if fs != [] {
      var init := fs[..|fs| - 1];
      PairsLayout(init);
      forall i | 0 <= i < |fs| ensures Pairs(fs)[2 * i] == "/" && Pairs(fs)[2 * i + 1] == fs[i] {
        if i < |fs| - 1 {
          assert fs[i] == init[i];
        }
      }
    }
  }

  /** What split(s) returns. */
  function Tokens(s: string): seq<string>
    requires s != []
  {
    if s == "/" then ["/"]
    else Pairs(NonEmpty(Fields(s))) + (if s[|s| - 1] == '/' then ["/"] else [])
  }

  /** split, reading the target one std::getline field at a time: a '/' ends the
      current field, which is pushed after a "/" token when it is not empty. */
  method Split(s: string) returns (tokens: seq<string>)
    requires s != []
    ensures tokens == Tokens(s)
  {
    if s == "/" {
      return ["/"];
    }
    tokens := [];
    var token := "";
    var i := 0;
    while i < |s|
      invariant 0 <= i <= |s|
      invariant token == Fields(s[..i])[|Fields(s[..i])| - 1]
      invariant tokens == Pairs(NonEmpty(Fields(s[..i])[..|Fields(s[..i])| - 1]))
    {
      assert s[..i + 1][..i] == s[..i];
      ghost var f := Fields(s[..i]);
      if s[i] == '/' {
        assert Fields(s[..i + 1]) == f + [[]];
        assert (f + [[]])[..|f|] == f;
        if token != [] {
          tokens := tokens + ["/", token];
        }
        token := "";
      } else {
        token := token + [s[i]];
      }
      i := i + 1;
    }
    assert s[..|s|] == s;
    if token != [] {
      tokens := tokens + ["/", token];
    }
    if s[|s| - 1] == '/' {
      tokens := tokens + ["/"];
    }
  }

  /** A last field that is not empty means a non-empty field exists. */
  lemma LastFieldKept(fs: seq<string>)
    requires fs != [] && fs[|fs| - 1] != []
    ensures NonEmpty(fs) != []
  {
  }

  /** Layout of split's result: "/" at even indices, a slash-free non-empty field at odd ones;
      the odd tokens are exactly the non-empty fields in order; a final extra "/" iff `s` ends in '/'. */
  lemma TokensLayout(s: string)
    requires s != []
    ensures |Tokens(s)| == 2 * |NonEmpty(Fields(s))| + (if s[|s| - 1] == '/' then 1 else 0)
    ensures forall k :: 0 <= k < |Tokens(s)| && k % 2 == 0 ==> Tokens(s)[k] == "/"
    ensures forall k :: 0 <= k < |Tokens(s)| && k % 2 == 1 ==> Tokens(s)[k] != [] && '/' !in Tokens(s)[k]
    ensures forall i :: 0 <= i < |NonEmpty(Fields(s))| ==> Tokens(s)[2 * i + 1] == NonEmpty(Fields(s))[i]
  {
    if s == "/" {
      SlashSpecialCase();
    } else {
      GeneralLayout(s);
    }
  }

  lemma GeneralLayout(s: string)
    requires s != [] && s != "/"
    ensures var t, ne := Tokens(s), NonEmpty(Fields(s));
      && |t| == 2 * |ne| + (if s[|s| - 1] == '/' then 1 else 0)
      && (forall k :: 0 <= k < |t| && k % 2 == 0 ==> t[k] == "/")
      && (forall k :: 0 <= k < |t| && k % 2 == 1 ==> t[k] != [] && '/' !in t[k])
      && (forall i :: 0 <= i < |ne| ==> t[2 * i + 1] == ne[i])
  {
    var f := Fields(s);
    var ne := NonEmpty(f);
    FieldsJoin(s);
    forall i | 0 <= i < |ne| ensures ne[i] != [] && '/' !in ne[i] {
      assert ne[i] in f;
    }
    PairsWithTail(ne, s[|s| - 1] == '/');
  }

  /** The layout of "/"-segment pairs followed by an optional final "/". */
  lemma PairsWithTail(ne: seq<string>, extra: bool)
    requires forall i :: 0 <= i < |ne| ==> ne[i] != [] && '/' !in ne[i]
    ensures var t := Pairs(ne) + (if extra then ["/"] else []);
      && |t| == 2 * |ne| + (if extra then 1 else 0)
      && (forall k :: 0 <= k < |t| && k % 2 == 0 ==> t[k] == "/")
      && (forall k :: 0 <= k < |t| && k % 2 == 1 ==> t[k] != [] && '/' !in t[k])
      && (forall i :: 0 <= i < |ne| ==> t[2 * i + 1] == ne[i])
  {
    var p := Pairs(ne);
    var t := p + (if extra then ["/"] else []);
    PairsLayout(ne);
    forall k | 0 <= k < |t| ensures k % 2 == 0 ==> t[k] == "/"
      ensures k % 2 == 1 ==> t[k] != [] && '/' !in t[k]
    {
      if k < |p| {
        var i := k / 2;
        assert k == 2 * i || k == 2 * i + 1;
        assert t[k] == p[k];
        if k == 2 * i + 1 {
          assert p[2 * i + 1] == ne[i];
        }
      }
    }
  }

  /** split of a non-empty target is never empty and always starts with the "/" token:
      the route key always begins with "/". */
  lemma TokensStartWithSlash(s: string)
    requires s != []
    ensures |Tokens(s)| >= 1 && Tokens(s)[0] == "/"
  {
    TokensLayout(s);
    var f := Fields(s);
    if s[|s| - 1] != '/' {
      assert s == s[..|s| - 1] + [s[|s| - 1]];
      assert f[|f| - 1] != [];
      LastFieldKept(f);
    }
  }

  /** The special case for "/" agrees with the general rule: no non-empty field, and a trailing slash. */
  lemma SlashSpecialCase()
    ensures NonEmpty(Fields("/")) == []
    ensures Tokens("/") == Pairs(NonEmpty(Fields("/"))) + ["/"]
  {
    assert Fields("/") == ["", ""];
    assert ["", ""][..1] == [""];
    assert NonEmpty([""]) == [];
  }

  lemma ExampleFields()
    ensures Fields("/a/") == ["", "a", ""]
    ensures Fields("/a/b") == ["", "a", "b"]
  {
    var f1 := Fields("/");
    assert f1 == ["", ""];
    assert "/a"[..1] == "/";
    var f2 := Fields("/a");
    assert f2 == f1[..1] + [f1[1] + ['a']];
    assert f1[1] + ['a'] == "a";
    assert f2 == ["", "a"];
    assert "/a/"[..2] == "/a";
    var f3 := Fields("/a/");
    assert f3 == f2 + [""];
    assert "/a/b"[..3] == "/a/";
    var f4 := Fields("/a/b");
    assert f4 == f3[..2] + [f3[2] + ['b']];
    assert f3[2] + ['b'] == "b";
  }

  lemma ExampleSegments()
    ensures NonEmpty(["", "a", ""]) == ["a"]
    ensures NonEmpty(["", "a", "b"]) == ["a", "b"]
    ensures Pairs(["a"]) == ["/", "a"]
    ensures Pairs(["a", "b"]) == ["/", "a", "/", "b"]
  {
    assert ["", "a", ""][..2] == ["", "a"];
    assert ["", "a", "b"][..2] == ["", "a"];
    assert ["", "a"][..1] == [""];
    assert [""][..0] == [];
    assert NonEmpty([""]) == [];
    assert NonEmpty(["", "a"]) == ["a"];
    assert ["a", "b"][..1] == ["a"];
    assert ["a"][..0] == [];
  }

  /** split("/a/b") and split("/a/"), as worked examples. */
  lemma TokensExamples()
    ensures Tokens("/a/b") == ["/", "a", "/", "b"]
    ensures Tokens("/a/") == ["/", "a", "/"]
  {
    var b, d := "/a/b", "/a/";
    assert Tokens(b) == ["/", "a", "/", "b"] by {
      ExampleFields();
      ExampleSegments();
      assert b != "/" && b[|b| - 1] == 'b';
      assert Tokens(b) == Pairs(NonEmpty(Fields(b))) + [];
    }
    assert Tokens(d) == ["/", "a", "/"] by {
      ExampleFields();
      ExampleSegments();
      assert d != "/" && d[|d| - 1] == '/';
      assert Tokens(d) == Pairs(NonEmpty(Fields(d))) + ["/"];
    }
  }
}
