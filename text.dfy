/**
 * Splitting text at '/' the way both the Ruby scripts (`String#split('/')`)
 * and Python's pathlib see a path string.
 */
module Text {
  import opened Wrappers

  /** Every '/'-separated field of `s`, empty ones included; "" has one empty field. */
  function Fields(s: string): (r: seq<string>)
    ensures |r| >= 1
    ensures forall k :: 0 <= k < |r| ==> '/' !in r[k]
  {
    if s == [] then [""]
    else
      var rest := Fields(s[1..]);
      if s[0] == '/' then [""] + rest
      else [[s[0]] + rest[0]] + rest[1..]
  }

  /** Glues fields back together with '/' between consecutive ones. */
  function Unfields(fields: seq<string>): string
    requires |fields| >= 1
  {
    if |fields| == 1 then fields[0] else fields[0] + "/" + Unfields(fields[1..])
  }

  /** Splitting and gluing give back the original text. */
  lemma {:induction false} UnfieldsFields(s: string)
    ensures Unfields(Fields(s)) == s
  {
    if s != [] {
      UnfieldsFields(s[1..]);
      var rest := Fields(s[1..]);
      if s[0] == '/' {
        assert Fields(s) == [""] + rest;
        assert ([""] + rest)[1..] == rest;
      } else if |rest| == 1 {
        assert Fields(s) == [[s[0]] + rest[0]];
        assert s == [s[0]] + s[1..];
      } else {
        var r := Fields(s);
        assert r == [[s[0]] + rest[0]] + rest[1..];
        assert r[1..] == rest[1..];
        assert s == [s[0]] + s[1..];
      }
    }
  }

  lemma {:induction false} FieldsOfPrefixed(a: string, s: string)
    requires '/' !in a
    ensures Fields(a + s) == [a + Fields(s)[0]] + Fields(s)[1..]
  {
    var f := Fields(s);
    if a == [] {
      assert a + s == s && a + f[0] == f[0];
      assert f == [f[0]] + f[1..];
    } else {
      assert (a + s)[1..] == a[1..] + s;
      FieldsOfPrefixed(a[1..], s);
      var rest := Fields(a[1..] + s);
      assert rest[0] == a[1..] + f[0] && rest[1..] == f[1..];
      assert Fields(a + s) == [[a[0]] + rest[0]] + rest[1..];
      assert a == [a[0]] + a[1..];
      assert [a[0]] + rest[0] == a + f[0];
    }
  }

  /** Gluing fields that hold no '/' and splitting again gives back the fields. */
  lemma {:induction false} FieldsUnfields(fields: seq<string>)
    requires |fields| >= 1
    requires forall k :: 0 <= k < |fields| ==> '/' !in fields[k]
    ensures Fields(Unfields(fields)) == fields
  {
    if |fields| == 1 {
      FieldsOfPrefixed(fields[0], "");
      assert fields[0] + "" == fields[0];
      assert Fields("") == [""];
      assert fields == [fields[0]];
    } else {
      var tail := Unfields(fields[1..]);
      FieldsUnfields(fields[1..]);
      assert Fields("/" + tail) == [""] + Fields(tail) by {
        assert ("/" + tail)[1..] == tail;
      }
      assert fields[0] + "/" + tail == fields[0] + ("/" + tail);
      FieldsOfPrefixed(fields[0], "/" + tail);
      var g := Fields("/" + tail);
      assert g[0] == "" && g[1..] == fields[1..];
      assert fields[0] + g[0] == fields[0];
      assert fields == [fields[0]] + fields[1..];
    }
  }

  lemma {:induction false} UnfieldsLast(fields: seq<string>)
    requires |fields| >= 2
    ensures Unfields(fields) == Unfields(fields[..|fields| - 1]) + "/" + fields[|fields| - 1]
  {
    if |fields| > 2 {
      UnfieldsLast(fields[1..]);
      assert fields[1..][..|fields| - 2] == fields[..|fields| - 1][1..];
    }
  }

  /** The last non-empty field, if there is one. */
  function LastNonEmpty(fields: seq<string>): (r: Option<string>)
    ensures r.Some? ==> r.value in fields && r.value != ""
    ensures r.None? ==> forall k :: 0 <= k < |fields| ==> fields[k] == ""
  {
    if fields == [] then None
    else if fields[|fields| - 1] != "" then Some(fields[|fields| - 1])
    else LastNonEmpty(fields[..|fields| - 1])
  }

  /**
   * Ruby's `path.split('/').last`, read off its definition: `split` drops
   * trailing empty fields, so this is the last non-empty field, and nil when
   * there is none ("" or only slashes).
   */
  function SplitLast(path: string): Option<string>
  {
    LastNonEmpty(Fields(path))
  }

  /**
   * The name the scripts take from a path, computed from its end: skip
   * trailing slashes, then take the text back to the previous '/'.
   */
  function LastName(path: string): Option<string>
  {
    if path == [] then None
    else if path[|path| - 1] == '/' then LastName(path[..|path| - 1])
    else Some(Tail(path))
  }

  /** The text after the last '/' of `path` (all of it when there is none). */
  function Tail(path: string): string
  {
    if path == [] || path[|path| - 1] == '/' then [] else Tail(path[..|path| - 1]) + [path[|path| - 1]]
  }

  /** A trailing '/' opens a new, empty last field. */
  lemma FieldsSnocSlash(p: string)
    ensures Fields(p + "/") == Fields(p) + [""]
  {
    var f := Fields(p);
    var g := f + [""];
    UnfieldsFields(p);
    UnfieldsLast(g);
    assert g[..|f|] == f;
    assert Unfields(g) == p + "/" + "";
    assert p + "/" + "" == p + "/";
    forall k | 0 <= k < |g| ensures '/' !in g[k] {
      if k < |f| {
        assert g[k] == f[k];
      }
    }
    FieldsUnfields(g);
  }

  /** Any other trailing character extends the last field. */
  lemma FieldsSnocChar(p: string, c: char)
    requires c != '/'
    ensures var f := Fields(p); Fields(p + [c]) == f[..|f| - 1] + [f[|f| - 1] + [c]]
  {
    var f := Fields(p);
    var n := |f|;
    var last := f[n - 1] + [c];
    var g := f[..n - 1] + [last];
    UnfieldsFields(p);
    if n == 1 {
      assert g == [last];
      assert Unfields(g) == p + [c];
    } else {
      UnfieldsLast(g);
      UnfieldsLast(f);
      assert g[..n - 1] == f[..n - 1];
      var front := Unfields(f[..n - 1]);
      assert p == front + "/" + f[n - 1];
      assert Unfields(g) == front + "/" + last;
      assert front + "/" + last == (front + "/" + f[n - 1]) + [c];
    }
    forall k | 0 <= k < |g| ensures '/' !in g[k] {
      if k < n - 1 {
        assert g[k] == f[k];
      }
    }
    FieldsUnfields(g);
  }

  /** Splitting `p + [c]`: a '/' opens a new empty field, anything else extends the last one. */
  lemma FieldsSnoc(p: string, c: char)
    ensures var f := Fields(p);
      Fields(p + [c]) == if c == '/' then f + [""] else f[..|f| - 1] + [f[|f| - 1] + [c]]
  {
    if c == '/' {
      FieldsSnocSlash(p);
      assert p + "/" == p + [c];
    } else {
      FieldsSnocChar(p, c);
    }
  }

  /** `Tail` is the last field of the split. */
  lemma {:induction false} TailIsLastField(p: string)
    ensures Tail(p) == Fields(p)[|Fields(p)| - 1]
    decreases |p|
  {
    if p != [] {
      var q := p[..|p| - 1];
      assert p == q + [p[|p| - 1]];
      FieldsSnoc(q, p[|p| - 1]);
      TailIsLastField(q);
    }
  }

  /** The name computed from the end is Ruby's `split('/').last`. */
  lemma {:induction false} LastNameIsSplitLast(path: string)
    ensures LastName(path) == SplitLast(path)
    decreases |path|
  {
    if path != [] {
      var q := path[..|path| - 1];
      var c := path[|path| - 1];
      assert path == q + [c];
      FieldsSnoc(q, c);
      var f := Fields(q);
      if c == '/' {
        LastNameIsSplitLast(q);
        assert (f + [""])[..|f|] == f;
      } else {
        TailIsLastField(q);
        assert Tail(path) == f[|f| - 1] + [c];
      }
    }
  }

  /** A name is never empty and holds no '/'. */
  lemma LastNameShape(path: string)
    requires LastName(path).Some?
    ensures LastName(path).value != "" && '/' !in LastName(path).value
  {
    LastNameIsSplitLast(path);
  }

  /** There is no name exactly when the path is empty or all slashes. */
  lemma {:induction false} LastNameNone(path: string)
    ensures LastName(path).None? <==> forall k :: 0 <= k < |path| ==> path[k] == '/'
    decreases |path|
  {
    if path != [] {
      var q := path[..|path| - 1];
      LastNameNone(q);
      if path[|path| - 1] == '/' {
        assert forall k :: 0 <= k < |q| ==> q[k] == path[k];
      }
    }
  }

  /** `Tail` is a suffix preceded by '/' or by nothing. */
  lemma {:induction false} TailIsSuffix(path: string)
    ensures var t := Tail(path);
      |t| <= |path| && path[|path| - |t|..] == t && (|t| == |path| || path[|path| - |t| - 1] == '/')
    decreases |path|
  {
    if path != [] && path[|path| - 1] != '/' {
      var q, c := path[..|path| - 1], path[|path| - 1];
      TailIsSuffix(q);
      var t := Tail(q);
      assert Tail(path) == t + [c];
      assert path == q + [c];
      assert path[|q| - |t|..] == q[|q| - |t|..] + [c];
      if |t| < |q| {
        assert path[|q| - |t| - 1] == q[|q| - |t| - 1];
      }
    }
  }

  /**
   * For a path that does not end in '/', the name is exactly the text after
   * the last '/' (or the whole path when it has no '/').
   */
  lemma LastNameIsAfterLastSlash(path: string)
    requires path != "" && path[|path| - 1] != '/'
    ensures LastName(path).Some?
    ensures var name := LastName(path).value;
      |name| <= |path| && path[|path| - |name|..] == name && '/' !in name &&
      (|name| == |path| || path[|path| - |name| - 1] == '/')
  {
    TailIsSuffix(path);
    LastNameShape(path);
  }

  /** The text after the last '/' of "dir/name" is `name`. */
  lemma {:induction false} TailOfChild(dir: string, name: string)
    requires '/' !in name
    ensures Tail(dir + "/" + name) == name
    decreases |name|
  {
    var p := dir + "/" + name;
    if name == [] {
      assert p[|p| - 1] == '/';
    } else {
      var n := name[..|name| - 1];
      assert p[..|p| - 1] == dir + "/" + n;
      TailOfChild(dir, n);
      assert name == n + [name[|name| - 1]];
    }
  }

  /** What a glob of a directory yields, "dir/name", has the name `name`. */
  lemma LastNameOfChild(dir: string, name: string)
    requires name != "" && '/' !in name
    ensures LastName(dir + "/" + name) == Some(name)
  {
    TailOfChild(dir, name);
  }

  /** `sub` occurs in `s` starting at index `k`. */
  predicate OccursAt(s: string, sub: string, k: int)
  {
    0 <= k <= |s| - |sub| && s[k..k + |sub|] == sub
  }

  /** Ruby's `s.include?(sub)`: `sub` occurs somewhere in `s`. */
  function Contains(s: string, sub: string): bool
  {
    |sub| <= |s| && (s[..|sub|] == sub || (s != [] && Contains(s[1..], sub)))
  }

  /** `Contains` holds exactly when `sub` occurs at some index of `s`. */
  lemma {:induction false} ContainsIff(s: string, sub: string)
    ensures Contains(s, sub) <==> exists k :: OccursAt(s, sub, k)
  {
    if |sub| <= |s| && s != [] {
      ContainsIff(s[1..], sub);
      if Contains(s, sub) {
        if s[..|sub|] == sub {
          assert OccursAt(s, sub, 0);
        } else {
          var k :| OccursAt(s[1..], sub, k);
          assert s[k + 1..k + 1 + |sub|] == s[1..][k..k + |sub|];
          assert OccursAt(s, sub, k + 1);
        }
      }
      if exists k :: OccursAt(s, sub, k) {
        var k :| OccursAt(s, sub, k);
        if k > 0 {
          assert s[1..][k - 1..k - 1 + |sub|] == s[k..k + |sub|];
          assert OccursAt(s[1..], sub, k - 1);
        }
      }
    } else if |sub| <= |s| {
      assert OccursAt(s, sub, 0);
    }
  }
}
