/** Go strings as bytes, and the parts of Go's strings package that several models share. */
module Text {
  newtype Byte = b: int | 0 <= b < 256
  type Bytes = seq<Byte>

  // ---------- Go's string order ----------

  /**
    `a < b`: lexicographic by the ranks of the elements. Go compares the bytes of
    strings, which orders UTF-8 as the code points are ordered.
  */
  predicate Less<T(==)>(a: seq<T>, b: seq<T>, rank: T -> int)
    decreases a
  {
    b != [] && (a == [] || rank(a[0]) < rank(b[0]) || (a[0] == b[0] && Less(a[1..], b[1..], rank)))
  }

  ghost predicate Injective<T(!new)>(rank: T -> int) {
    forall x, y :: rank(x) == rank(y) ==> x == y
  }

  /** Up to `k` the lists agree; there `a` ends or holds the element of smaller rank. */
  predicate SmallerAt<T(==)>(a: seq<T>, b: seq<T>, rank: T -> int, k: nat) {
    k <= |a| && k < |b| && a[..k] == b[..k] && (k == |a| || rank(a[k]) < rank(b[k]))
  }

  lemma {:induction false} SmallerAtIsLess<T>(a: seq<T>, b: seq<T>, rank: T -> int, k: nat)
    requires SmallerAt(a, b, rank, k)
    ensures Less(a, b, rank)
    decreases k
  {
    if k > 0 {
      assert a[0] == a[..k][0] == b[..k][0] == b[0];
      assert a[1..][..k - 1] == a[..k][1..] == b[..k][1..] == b[1..][..k - 1];
      SmallerAtIsLess(a[1..], b[1..], rank, k - 1);
    }
  }

  /** The first difference decides, and a proper prefix comes before its extensions. */
  lemma {:induction false} LessIff<T>(a: seq<T>, b: seq<T>, rank: T -> int)
    ensures Less(a, b, rank) <==> exists k: nat :: SmallerAt(a, b, rank, k)
    decreases a
  {
    if k: nat :| SmallerAt(a, b, rank, k) {
      SmallerAtIsLess(a, b, rank, k);
    } else if Less(a, b, rank) {
      assert !SmallerAt(a, b, rank, 0);
      LessIff(a[1..], b[1..], rank);
      var k: nat :| SmallerAt(a[1..], b[1..], rank, k);
      assert a == [a[0]] + a[1..] && b == [b[0]] + b[1..];
      assert a[..k + 1] == [a[0]] + a[1..][..k] && b[..k + 1] == [b[0]] + b[1..][..k];
      assert SmallerAt(a, b, rank, k + 1);
    }
  }

  /** Of two different lists exactly one comes first. */
  lemma {:induction false} LessIsStrictTotal<T(!new)>(a: seq<T>, b: seq<T>, rank: T -> int)
    requires Injective(rank)
    ensures a == b ==> !Less(a, b, rank)
    ensures a != b ==> (Less(a, b, rank) <==> !Less(b, a, rank))
    decreases a
  {
    if a == [] || b == [] {
    } else {
      assert a == [a[0]] + a[1..] && b == [b[0]] + b[1..];
      assert rank(a[0]) == rank(b[0]) ==> a[0] == b[0];
      LessIsStrictTotal(a[1..], b[1..], rank);
    }
  }

  lemma {:induction false} LessIsTransitive<T(!new)>(a: seq<T>, b: seq<T>, c: seq<T>, rank: T -> int)
    requires Less(a, b, rank) && Less(b, c, rank)
    ensures Less(a, c, rank)
    decreases a
  {
    if a == [] {
    } else if a[0] == b[0] == c[0] {
      LessIsTransitive(a[1..], b[1..], c[1..], rank);
    }
  }

  // ---------- Words ----------

  /** unicode.IsSpace. */
  predicate IsSpace(c: char) {
    c == '\t' || c == '\n' || c == '\U{0B}' || c == '\U{0C}' || c == '\r' || c == ' ' || c == '\U{85}' || c == '\U{A0}'
    || c == '\U{1680}' || '\U{2000}' <= c <= '\U{200A}' || c == '\U{2028}' || c == '\U{2029}' || c == '\U{202F}'
    || c == '\U{205F}' || c == '\U{3000}'
  }

  /** strings.TrimSpace(s) is empty. */
  predicate Blank(s: string) {
    forall c :: c in s ==> IsSpace(c)
  }

  /** A word in the sense of strings.Fields: not empty, no white space. */
  predicate IsField(s: string) {
    s != "" && forall i :: 0 <= i < |s| ==> !IsSpace(s[i])
  }

  /** The length of the longest prefix without white space. */
  function FieldLength(s: string): (n: nat)
    ensures n <= |s|
    ensures forall i :: 0 <= i < n ==> !IsSpace(s[i])
    ensures n < |s| ==> IsSpace(s[n])
  {
    if s == "" || IsSpace(s[0]) then 0 else 1 + FieldLength(s[1..])
  }

  /** strings.Fields: the maximal runs of characters that are not white space. */
  function Fields(s: string): (fields: seq<string>)
    ensures forall f :: f in fields ==> IsField(f)
    decreases |s|
  {
    if s == "" then []
    else if IsSpace(s[0]) then Fields(s[1..])
    else var n := FieldLength(s); [s[..n]] + Fields(s[n..])
  }

  /** strings.Join with a space. */
  function JoinFields(fields: seq<string>): string {
    if fields == [] then ""
    else if |fields| == 1 then fields[0]
    else fields[0] + " " + JoinFields(fields[1..])
  }

  lemma {:induction false} FieldLengthOf(f: string, tail: string)
    requires forall i :: 0 <= i < |f| ==> !IsSpace(f[i])
    requires tail == "" || IsSpace(tail[0])
    ensures FieldLength(f + tail) == |f|
    decreases f
  {
    if f == "" {
    } else {
      assert (f + tail)[1..] == f[1..] + tail;
      FieldLengthOf(f[1..], tail);
    }
  }

  /** Splitting a joined list of words gives the words back, so joining is injective on words. */
  lemma {:induction false} FieldsOfJoin(fields: seq<string>)
    requires forall f :: f in fields ==> IsField(f)
    ensures Fields(JoinFields(fields)) == fields
  {
    if fields == [] {
    } else {
      var f := fields[0];
      var s := JoinFields(fields);
      assert f in fields;
      if |fields| == 1 {
        FieldLengthOf(f, "");
        assert f + "" == f && s[|f|..] == "";
      } else {
        var rest := JoinFields(fields[1..]);
        assert s == f + (" " + rest);
        FieldLengthOf(f, " " + rest);
        assert s[..|f|] == f && s[|f|..] == " " + rest;
        assert (" " + rest)[1..] == rest;
        FieldsOfJoin(fields[1..]);
      }
    }
  }

  /** White space separates: its sides contribute their words independently. */
  lemma {:induction false} FieldsOfSeparated(a: string, c: char, b: string)
    requires IsSpace(c)
    ensures Fields(a + [c] + b) == Fields(a) + Fields(b)
    decreases |a|
  {
    var s := a + [c] + b;
    if a == "" {
      assert s[0] == c && s[1..] == b;
    } else if IsSpace(a[0]) {
      assert s[0] == a[0] && s[1..] == a[1..] + [c] + b;
      FieldsOfSeparated(a[1..], c, b);
    } else {
      var n := FieldLength(a);
      FieldLengthOf(a[..n], a[n..] + [c] + b);
      assert s == a[..n] + (a[n..] + [c] + b);
      assert s[0] == a[0] && s[..n] == a[..n] && s[n..] == a[n..] + [c] + b;
      FieldsOfSeparated(a[n..], c, b);
    }
  }
}
