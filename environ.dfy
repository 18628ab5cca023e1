/** Replacing one variable in a list of `NAME=value` environment entries (`environReplace`). */
module Environ {
  import opened Strings

  /** The entries of `env` that do not start with `prefix`, in their original order. */
  function Without(env: seq<string>, prefix: string): seq<string>
    decreases |env|
  {
    if env == [] then []
    else
      var last := env[|env| - 1];
      Without(env[..|env| - 1], prefix) + (if HasPrefix(last, prefix) then [] else [last])
  }

  /** The list `environReplace(env, name, val)` returns. */
  function Replaced(env: seq<string>, name: string, val: string): seq<string> {
    Without(env, name + "=") + [name + "=" + val]
  }

  /** An entry survives exactly when it was in `env` and does not start with `prefix`. */
  lemma {:induction false} WithoutMembers(env: seq<string>, prefix: string, s: string)
    ensures s in Without(env, prefix) <==> s in env && !HasPrefix(s, prefix)
    decreases |env|
  {
    if env != [] {
      var init := env[..|env| - 1];
      WithoutMembers(init, prefix, s);
      assert env == init + [env[|env| - 1]];
    }
  }

  /** Filtering distributes over concatenation, so the kept entries keep their relative order. */
  lemma {:induction false} WithoutAppend(a: seq<string>, b: seq<string>, prefix: string)
    ensures Without(a + b, prefix) == Without(a, prefix) + Without(b, prefix)
    decreases |b|
  {
    if b == [] {
      assert a + b == a;
    } else {
      var init := b[..|b| - 1];
      assert (a + b)[..|a + b| - 1] == a + init;
      assert (a + b)[|a + b| - 1] == b[|b| - 1];
      WithoutAppend(a, init, prefix);
    }
  }

  /** Filtering never lengthens the list, and keeping every entry means keeping the list as it is. */
  lemma {:induction false} WithoutLength(env: seq<string>, prefix: string)
    ensures |Without(env, prefix)| <= |env|
    ensures |Without(env, prefix)| == |env| ==> Without(env, prefix) == env
    decreases |env|
  {
    if env != [] {
      var init, last := env[..|env| - 1], env[|env| - 1];
      WithoutLength(init, prefix);
      var kept := Without(init, prefix);
      assert Without(env, prefix) == kept + (if HasPrefix(last, prefix) then [] else [last]);
      if !HasPrefix(last, prefix) && |kept| == |init| {
        assert env == init + [last];
      }
    }
  }

  /** Filtering a list none of whose entries starts with `prefix` is the identity. */
  lemma {:induction false} WithoutIdentity(env: seq<string>, prefix: string)
    requires forall k :: 0 <= k < |env| ==> !HasPrefix(env[k], prefix)
    ensures Without(env, prefix) == env
    decreases |env|
  {
    if env != [] {
      var init := env[..|env| - 1];
      WithoutIdentity(init, prefix);
      assert env == init + [env[|env| - 1]];
    }
  }

  /** An entry with the prefix is always dropped, so the list gets shorter. */
  lemma WithoutRemoves(env: seq<string>, prefix: string, k: nat)
    requires k < |env| && HasPrefix(env[k], prefix)
    ensures |Without(env, prefix)| < |env|
  {
    WithoutLength(env, prefix);
    WithoutMembers(env, prefix, env[k]);
  }

  /** Filtering twice is filtering once. */
  lemma {:induction false} WithoutIdempotent(env: seq<string>, prefix: string)
    ensures Without(Without(env, prefix), prefix) == Without(env, prefix)
    decreases |env|
  {
    if env != [] {
      var init := env[..|env| - 1];
      var last := env[|env| - 1];
      WithoutIdempotent(init, prefix);
      WithoutAppend(Without(init, prefix), if HasPrefix(last, prefix) then [] else [last], prefix);
      assert Without([last], prefix) == (if HasPrefix(last, prefix) then [] else [last]) by {
        assert [last][..0] == [];
      }
    }
  }

  /**
   * The result holds exactly one `name=` entry, the last one, bound to `val`;
   * every other entry comes from `env` and does not start with `name=`, and
   * every such entry of `env` is kept.
   */
  lemma ReplacedShape(env: seq<string>, name: string, val: string)
    ensures var r := Replaced(env, name, val);
      && |r| > 0 && r[|r| - 1] == name + "=" + val
      && (forall k :: 0 <= k < |r| ==> (HasPrefix(r[k], name + "=") <==> k == |r| - 1))
      && (forall s :: s in r[..|r| - 1] <==> s in env && !HasPrefix(s, name + "="))
  {
    var p := name + "=";
    var r := Replaced(env, name, val);
    var kept := Without(env, p);
    assert r[..|r| - 1] == kept;
    forall s ensures s in kept <==> s in env && !HasPrefix(s, p) {
      WithoutMembers(env, p, s);
    }
    assert HasPrefix(name + "=" + val, p) by {
      assert (name + "=" + val)[..|p|] == p;
    }
    forall k | 0 <= k < |r| - 1 ensures !HasPrefix(r[k], p) {
      assert r[k] == kept[k] && kept[k] in kept;
    }
  }

  /** Replacing a variable twice is the same as replacing it once with the second value. */
  lemma ReplacedTwice(env: seq<string>, name: string, v1: string, v2: string)
    ensures Replaced(Replaced(env, name, v1), name, v2) == Replaced(env, name, v2)
  {
    var p := name + "=";
    var entry := name + "=" + v1;
    assert HasPrefix(entry, p) by {
      assert entry[..|p|] == p;
    }
    var kept := Without(env, p);
    calc {
      Replaced(Replaced(env, name, v1), name, v2);
      Without(kept + [entry], p) + [name + "=" + v2];
      { WithoutAppend(kept, [entry], p); }
      Without(kept, p) + Without([entry], p) + [name + "=" + v2];
      { assert [entry][..0] == []; assert Without([entry], p) == []; }
      Without(kept, p) + [name + "=" + v2];
      { WithoutIdempotent(env, p); }
      kept + [name + "=" + v2];
    }
  }

  /** An environment without a `name=` entry just gains `name=val` at its end. */
  lemma ReplacedAppends(env: seq<string>, name: string, val: string)
    requires forall k :: 0 <= k < |env| ==> !HasPrefix(env[k], name + "=")
    ensures Replaced(env, name, val) == env + [name + "=" + val]
  {
    WithoutIdentity(env, name + "=");
  }

  /**
   * The loop of `environReplace`: `r := env[:0]` followed by one `append` per
   * entry that does not start with `prefix`, which compacts those entries to
   * the front of `env`'s own storage. Positions from `w` on are never written.
   */
  method Compact(env: array<string>, prefix: string) returns (w: nat)
    modifies env
    ensures w <= env.Length
    ensures env[..w] == Without(old(env[..]), prefix)
    ensures env[w..] == old(env[..])[w..]
  {
    ghost var orig := env[..];
    w := 0;
    var i := 0;
    while i < env.Length
      invariant 0 <= w <= i <= env.Length
      invariant env[..w] == Without(orig[..i], prefix)
      invariant env[w..] == orig[w..]
    {
      var s := env[i];
      assert s == env[w..][i - w] == orig[i];
      assert orig[..i + 1] == orig[..i] + [s];
      if !HasPrefix(s, prefix) {
        env[w] := s;
        w := w + 1;
      }
      i := i + 1;
    }
    assert orig[..i] == orig;
  }

  /** `append` on a full slice: a fresh array holding the old entries followed by `entry`. */
  method Grow(a: array<string>, entry: string) returns (r: array<string>)
    ensures fresh(r) && r[..] == a[..] + [entry]
  {
    r := new string[a.Length + 1];
    var j := 0;
    while j < a.Length
      invariant 0 <= j <= a.Length
      invariant r[..j] == a[..j]
    {
      r[j] := a[j];
      j := j + 1;
    }
    r[a.Length] := entry;
    assert r[..] == r[..a.Length] + [entry];
  }

  /**
   * `environReplace(env, name, val)`: compacts the entries that do not start
   * with `name=` to the front of `env`'s own storage, then appends
   * `name=val`. The result is the slice `r[..n]`. When some entry was removed
   * the append fits in `env`, so the result aliases `env`; otherwise the
   * append outgrows it and a fresh array is allocated, leaving `env` as it was.
   */
  method EnvironReplace(env: array<string>, name: string, val: string) returns (r: array<string>, n: nat)
    modifies env
    ensures n <= r.Length
    ensures r[..n] == Replaced(old(env[..]), name, val)
    ensures n <= env.Length ==> r == env && env[n..] == old(env[n..])
    ensures n > env.Length ==> fresh(r) && env[..] == old(env[..])
  {
    ghost var orig := env[..];
    var prefix := name + "=";
    var w := Compact(env, prefix);
    WithoutLength(orig, prefix);
    ghost var kept := env[..w];
    var entry := name + "=" + val;
    assert Replaced(orig, name, val) == kept + [entry];
    if w < env.Length {
      assert orig[w + 1..] == orig[w..][1..] == env[w..][1..] == env[w + 1..];
      ghost var tail := env[w + 1..];
      env[w] := entry;
      assert env[w + 1..] == tail;
      r, n := env, w + 1;
      assert r[..n] == kept + [entry];
    } else {
      assert env[..] == kept == orig;
      r := Grow(env, entry);
      n := w + 1;
    }
  }
}
