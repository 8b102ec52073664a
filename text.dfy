/**
 * The string operations the mapping applies: `str.strip()`, the removal of
 * every `E0` marker by `str.replace('E0', '')`, the substring test `in`, and
 * `', '.join(...)`.
 */
module Text {

  /** The characters `str.strip()` removes by default (Python 2 byte strings:
      space, tab, line feed, vertical tab, form feed, carriage return). */
  predicate IsSpace(c: char)
  {
    c == ' ' || c == '\t' || c == '\n' || c == '\r' || c == '\U{000B}' || c == '\U{000C}'
  }

  /** `s.lstrip()`: drops the longest all-whitespace prefix. */
  function TrimStart(s: string): (r: string)
    ensures |r| <= |s| && r == s[|s| - |r|..]
    ensures forall k :: 0 <= k < |s| - |r| ==> IsSpace(s[k])
    ensures r == [] || !IsSpace(r[0])
  {
    if |s| > 0 && IsSpace(s[0]) then TrimStart(s[1..]) else s
  }

  /** `s.rstrip()`: drops the longest all-whitespace suffix. */
  function TrimEnd(s: string): (r: string)
    ensures |r| <= |s| && r == s[..|r|]
    ensures forall k :: |r| <= k < |s| ==> IsSpace(s[k])
    ensures r == [] || !IsSpace(r[|r| - 1])
  {
    if |s| > 0 && IsSpace(s[|s| - 1]) then TrimEnd(s[..|s| - 1]) else s
  }

  /** `s.strip()`: the result is a slice of `s`, everything cut away on either
      side is whitespace, and the result neither starts nor ends with
      whitespace. */
  function Strip(s: string): (r: string)
    ensures exists i, j :: (0 <= i <= j <= |s| && r == s[i..j] &&
      (forall k :: 0 <= k < i ==> IsSpace(s[k])) &&
      (forall k :: j <= k < |s| ==> IsSpace(s[k])))
    ensures r == [] || (!IsSpace(r[0]) && !IsSpace(r[|r| - 1]))
  {
    var t := TrimStart(s);
    var r := TrimEnd(t);
    StripWitness(s, t, r);
    r
  }

  /** The two trims compose: the result is the slice of `s` after the
      stripped prefix, and both cut-away parts are whitespace. */
  lemma StripWitness(s: string, t: string, r: string)
    requires |t| <= |s| && t == s[|s| - |t|..]
    requires |r| <= |t| && r == t[..|r|]
    requires forall k :: 0 <= k < |s| - |t| ==> IsSpace(s[k])
    requires forall k :: |r| <= k < |t| ==> IsSpace(t[k])
    ensures var i := |s| - |t|;
      r == s[i..i + |r|] &&
      (forall k :: 0 <= k < i ==> IsSpace(s[k])) &&
      (forall k :: i + |r| <= k < |s| ==> IsSpace(s[k]))
  {
    var i := |s| - |t|;
    forall k | i + |r| <= k < |s| ensures IsSpace(s[k]) {
      assert s[k] == t[k - i];
    }
  }

  /** Stripping twice changes nothing more than stripping once. */
  lemma StripIdempotent(s: string)
    ensures Strip(Strip(s)) == Strip(s)
  {
  }

  /** `s.replace('E0', '')`: a single left-to-right pass that deletes each
      non-overlapping occurrence of `E0`. */
  function RemoveE0(s: string): (r: string)
    ensures |r| <= |s|
  {
    if |s| >= 2 && s[0] == 'E' && s[1] == '0' then RemoveE0(s[2..])
    else if s == [] then []
    else [s[0]] + RemoveE0(s[1..])
  }

  /** `k` copies of the marker `E0`. */
  function Markers(k: nat): (r: string)
    ensures |r| == 2 * k
  {
    if k == 0 then [] else "E0" + Markers(k - 1)
  }

  lemma {:induction false} RemoveMarkersPrefix(k: nat, t: string)
    ensures RemoveE0(Markers(k) + t) == RemoveE0(t)
  {
    if k > 0 {
      var s := Markers(k) + t;
      assert s == "E0" + (Markers(k - 1) + t);
      assert s[2..] == Markers(k - 1) + t;
      RemoveMarkersPrefix(k - 1, t);
    } else {
      assert Markers(k) + t == t;
    }
  }

  lemma {:induction false} RemoveE0Empty(t: string)
    requires RemoveE0(t) == []
    ensures exists m: nat :: t == Markers(m)
  {
    if |t| >= 2 && t[0] == 'E' && t[1] == '0' {
      RemoveE0Empty(t[2..]);
      var m: nat :| t[2..] == Markers(m);
      assert t == Markers(m + 1);
    } else {
      assert t == Markers(0);
    }
  }

  /** The has-HTML flag reads as `"1"` after removing the markers exactly when
      it is a `1` surrounded by any number of `E0` markers on each side. */
  lemma {:induction false} RemoveE0IsOne(s: string)
    ensures RemoveE0(s) == "1" <==> exists k: nat, m: nat :: s == Markers(k) + "1" + Markers(m)
  {
    if RemoveE0(s) == "1" {
      RemoveE0IsOneOnly(s);
    }
    if exists k: nat, m: nat :: s == Markers(k) + "1" + Markers(m) {
      var k: nat, m: nat :| s == Markers(k) + "1" + Markers(m);
      assert s == Markers(k) + ("1" + Markers(m));
      RemoveMarkersPrefix(k, "1" + Markers(m));
      var u := "1" + Markers(m);
      assert u[1..] == Markers(m) + [];
      RemoveMarkersPrefix(m, []);
      assert RemoveE0(u) == "1" + RemoveE0(u[1..]);
    }
  }

  lemma {:induction false} RemoveE0IsOneOnly(s: string)
    requires RemoveE0(s) == "1"
    ensures exists k: nat, m: nat :: s == Markers(k) + "1" + Markers(m)
  {
    if |s| >= 2 && s[0] == 'E' && s[1] == '0' {
      RemoveE0IsOneOnly(s[2..]);
      var k: nat, m: nat :| s[2..] == Markers(k) + "1" + Markers(m);
      assert s == Markers(k + 1) + "1" + Markers(m);
    } else {
      assert s != [];
      var rest := RemoveE0(s[1..]);
      assert RemoveE0(s) == [s[0]] + rest;
      assert ([s[0]] + rest)[0] == s[0] && |[s[0]] + rest| == 1 + |rest|;
      assert s[0] == '1' && rest == [];
      RemoveE0Empty(s[1..]);
      var m: nat :| s[1..] == Markers(m);
      assert s == Markers(0) + "1" + Markers(m);
    }
  }

  /** A single pass: deleting one marker can expose another, which stays. */
  lemma RemoveE0SinglePass()
    ensures RemoveE0("1E0") == "1"
    ensures RemoveE0("EE001") == "E01"
  {
    assert RemoveE0("E0") == [];
    assert RemoveE0("01") == "01";
    assert RemoveE0("E001") == "01";
  }

  /** `sub in s`, as the substring test. */
  predicate Contains(s: string, sub: string)
    decreases |s|
  {
    |sub| <= |s| && (s[..|sub|] == sub || Contains(s[1..], sub))
  }

  /** `sub` occurs in `s` starting at offset `i`. */
  predicate OccursAt(s: string, sub: string, i: nat)
  {
    i + |sub| <= |s| && s[i..i + |sub|] == sub
  }

  /** The recursive test agrees with the positional definition: `sub` occurs
      at some offset of `s`. */
  lemma {:induction false} ContainsAt(s: string, sub: string)
    ensures Contains(s, sub) <==> exists i: nat :: OccursAt(s, sub, i)
    decreases |s|
  {
    if |sub| <= |s| {
      if s[..|sub|] == sub {
        assert OccursAt(s, sub, 0);
      } else {
        ContainsAt(s[1..], sub);
        if exists i: nat :: OccursAt(s, sub, i) {
          var i: nat :| OccursAt(s, sub, i);
          assert i != 0;
          assert s[1..][i - 1..i - 1 + |sub|] == s[i..i + |sub|];
          assert OccursAt(s[1..], sub, i - 1);
        }
        if Contains(s[1..], sub) {
          var i: nat :| OccursAt(s[1..], sub, i);
          assert s[1..][i..i + |sub|] == s[i + 1..i + 1 + |sub|];
          assert OccursAt(s, sub, i + 1);
        }
      }
    }
  }

  /** `sep.join(items)`. */
  function Join(sep: string, items: seq<string>): (r: string)
  {
    if items == [] then []
    else if |items| == 1 then items[0]
    else items[0] + sep + Join(sep, items[1..])
  }

  /** Appending an item adds one separator and the item at the end. */
  lemma {:induction false} JoinAppend(sep: string, items: seq<string>, x: string)
    requires items != []
    ensures Join(sep, items + [x]) == Join(sep, items) + sep + x
  {
    var all := items + [x];
    if |items| == 1 {
      assert all[1..] == [x];
    } else {
      assert all[1..] == items[1..] + [x];
      JoinAppend(sep, items[1..], x);
    }
  }

  /** The joined text is every item with one separator between neighbours. */
  lemma {:induction false} JoinLength(sep: string, items: seq<string>)
    ensures |Join(sep, items)| == SumOfLengths(items) + (if items == [] then 0 else (|items| - 1) * |sep|)
  {
    if |items| > 1 {
      JoinLength(sep, items[1..]);
    }
  }

  function SumOfLengths(items: seq<string>): (n: nat)
  {
    if items == [] then 0 else |items[0]| + SumOfLengths(items[1..])
  }
}
