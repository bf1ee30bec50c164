/** Mangled names and what a prefix of one finds. Components follow section 5.1 of the
    Itanium C++ ABI: each is preceded by its length. */
module Symbols {
  import opened Words

  const ANONYMOUS := "(anonymous)"
  const MARKER := "_GLOBAL__N_1"

  // --- Mangling ------------------------------------------------------------------

  function Decimal(n: nat): string {
    (if n < 10 then "" else Decimal(n / 10)) + [DigitOf(n % 10)]
  }

  function DigitOf(d: nat): char
    requires d < 10
  {
    "0123456789"[d]
  }

  /** A component under its own length. */
  function Counted(text: string): string { Decimal(|text|) + text }

  function Text(part: string): string { if part == ANONYMOUS then MARKER else part }

  function Encoded(parts: seq<string>): string {
    if parts == [] then "" else Counted(Text(parts[0])) + Encoded(parts[1..])
  }

  function Mangle(parts: seq<string>): string
    requires parts != []
  {
    var last := parts[|parts| - 1];
    if |parts| == 1 then last
    else "_ZN" + (Encoded(parts[..|parts| - 1]) + ((if ANONYMOUS in parts then "L" else "") + Counted(last) + "E"))
  }

  // --- Reading a mangled name back ---------------------------------------------------

  predicate IsDigit(c: char) { '0' <= c <= '9' }

  /** An identifier's text: something, and not starting with a digit. */
  predicate Ordinary(text: string) { text != "" && !IsDigit(text[0]) }

  /** A qualified name of two or more components, the last of them an identifier. */
  predicate Qualified(parts: seq<string>) {
    && |parts| >= 2 && parts[|parts| - 1] != ANONYMOUS
    && forall i :: 0 <= i < |parts| ==> Ordinary(parts[i])
  }

  function LeadingDigits(s: string): (n: nat)
    ensures n <= |s| && (forall i :: 0 <= i < n ==> IsDigit(s[i])) && (n < |s| ==> !IsDigit(s[n]))
  {
    if s == "" || !IsDigit(s[0]) then 0 else 1 + LeadingDigits(s[1..])
  }

  function Value(digits: string): nat
    requires forall i :: 0 <= i < |digits| ==> IsDigit(digits[i])
  {
    if digits == "" then 0
    else Value(digits[..|digits| - 1]) * 10 + DigitValue(digits[|digits| - 1])
  }

  function DigitValue(c: char): nat
    requires IsDigit(c)
  {
    c as int - '0' as int
  }

  lemma {:induction false} DecimalIsDigits(n: nat)
    ensures Decimal(n) != "" && (forall i :: 0 <= i < |Decimal(n)| ==> IsDigit(Decimal(n)[i])) && Value(Decimal(n)) == n
  {
    var head := if n < 10 then "" else Decimal(n / 10);
    if n >= 10 { DecimalIsDigits(n / 10); }
    OneMoreDigit(head, n % 10);
    assert Decimal(n) == head + [DigitOf(n % 10)];
    assert Value(head) == n / 10;
  }

  lemma OneMoreDigit(digits: string, d: nat)
    requires d < 10 && forall i :: 0 <= i < |digits| ==> IsDigit(digits[i])
    ensures var more := digits + [DigitOf(d)];
            (forall i :: 0 <= i < |more| ==> IsDigit(more[i])) && Value(more) == Value(digits) * 10 + d
  {
    assert (digits + [DigitOf(d)])[..|digits|] == digits;
  }

  lemma {:induction false} DigitsThenText(digits: string, rest: string)
    requires forall i :: 0 <= i < |digits| ==> IsDigit(digits[i])
    requires rest != "" && !IsDigit(rest[0])
    ensures LeadingDigits(digits + rest) == |digits|
    decreases |digits|
  {
    if digits == "" {
      assert digits + rest == rest;
    } else {
      assert (digits + rest)[1..] == digits[1..] + rest;
      DigitsThenText(digits[1..], rest);
    }
  }

  lemma CountedParts(text: string, rest: string)
    requires Ordinary(text)
    ensures var t, n := Counted(text) + rest, |Decimal(|text|)|;
            && n > 0 && LeadingDigits(t) == n && t[..n] == Decimal(|text|) && IsDigit(t[0])
            && n + |text| <= |t| && t[n..n + |text|] == text && t[n + |text|..] == rest
  {
    var digits := Decimal(|text|);
    DecimalIsDigits(|text|);
    DigitsThenText(digits, text + rest);
    assert Counted(text) + rest == digits + (text + rest);
  }

  /** A counted text followed by anything is that text followed by that. */
  lemma CountedCancels(t: string, x: string, u: string, y: string)
    requires Ordinary(t) && Ordinary(u) && Counted(t) + x == Counted(u) + y
    ensures t == u && x == y
  {
    CountedParts(t, x);
    CountedParts(u, y);
    DecimalIsDigits(|t|);
    DecimalIsDigits(|u|);
    assert Decimal(|t|) == Decimal(|u|);
  }

  function Ending(local: bool, last: string): string { (if local then "L" else "") + Counted(last) + "E" }

  lemma EndingStarts(local: bool, last: string, rest: string)
    requires Ordinary(last)
    ensures Ending(local, last) + rest == if local then "L" + (Counted(last) + ("E" + rest)) else Counted(last) + ("E" + rest)
    ensures var s := Ending(local, last) + rest; s != "" && s[0] != 'E' && (s[0] == 'L' <==> local)
  {
    CountedParts(last, "E" + rest);
    Regrouped(if local then "L" else "", Counted(last), "E", rest);
    assert "" + (Counted(last) + ("E" + rest)) == Counted(last) + ("E" + rest);
  }

  lemma Regrouped(a: string, b: string, c: string, d: string)
    ensures a + b + c + d == a + (b + (c + d))
  {}

  lemma EndingCancels(local: bool, last: string, r: string, remote: bool, other: string, s: string)
    requires Ordinary(last) && Ordinary(other) && Ending(local, last) + r == Ending(remote, other) + s
    ensures local == remote && last == other && r == s
  {
    EndingStarts(local, last, r);
    EndingStarts(remote, other, s);
    var x, y := Counted(last) + ("E" + r), Counted(other) + ("E" + s);
    assert ("L" + x)[1..] == x && ("L" + y)[1..] == y;
    CountedCancels(last, "E" + r, other, "E" + s);
    assert ("E" + r)[1..] == r && ("E" + s)[1..] == s;
  }

  /** Components, the mark of a local name, the name: what a mangled name says. */
  datatype Reading = Reading(scope: seq<string>, local: bool, last: string)

  function Texts(parts: seq<string>): (r: seq<string>)
    ensures |r| == |parts|
  {
    seq(|parts|, i requires 0 <= i < |parts| => Text(parts[i]))
  }

  function Read(parts: seq<string>): Reading
    requires parts != []
  {
    Reading(Texts(parts[..|parts| - 1]), ANONYMOUS in parts, parts[|parts| - 1])
  }

  function Spelt(r: Reading): string { Scope(r.scope) + Ending(r.local, r.last) }

  function Scope(texts: seq<string>): string {
    if texts == [] then "" else Counted(texts[0]) + Scope(texts[1..])
  }

  predicate Sound(r: Reading) { Ordinary(r.last) && forall i :: 0 <= i < |r.scope| ==> Ordinary(r.scope[i]) }

  lemma {:induction false} EncodedIsScope(parts: seq<string>)
    ensures Encoded(parts) == Scope(Texts(parts))
  {
    if parts != [] {
      EncodedIsScope(parts[1..]);
      assert Texts(parts)[1..] == Texts(parts[1..]);
    }
  }

  lemma MangleSpells(parts: seq<string>)
    requires Qualified(parts)
    ensures Mangle(parts) == "_ZN" + Spelt(Read(parts)) && Sound(Read(parts))
  {
    EncodedIsScope(parts[..|parts| - 1]);
  }

  lemma ScopeSplit(r: Reading, rest: string)
    requires r.scope != []
    ensures Spelt(r) + rest == Counted(r.scope[0]) + (Spelt(r.(scope := r.scope[1..])) + rest)
  {
    ScopeRegrouped(Counted(r.scope[0]), Scope(r.scope[1..]), Ending(r.local, r.last), rest);
  }

  lemma ScopeRegrouped(a: string, b: string, c: string, d: string)
    ensures ((a + b) + c) + d == a + ((b + c) + d)
  {}

  lemma SpeltStarts(r: Reading, rest: string)
    requires Sound(r)
    ensures var s := Spelt(r) + rest; s != "" && s[0] != 'E' && (r.scope != [] ==> s[0] != 'L')
  {
    if r.scope == [] {
      assert Spelt(r) == Ending(r.local, r.last);
      EndingStarts(r.local, r.last, rest);
    } else {
      ScopeSplit(r, rest);
      CountedParts(r.scope[0], Spelt(r.(scope := r.scope[1..])) + rest);
    }
  }

  /** A name does not end where another goes on. */
  lemma NoShorter(q: Reading, r: Reading, x: string, y: string)
    requires Sound(q) && Sound(r) && q.scope == [] && r.scope != []
    ensures Spelt(q) + x != Spelt(r) + y
  {
    assert Spelt(q) == Ending(q.local, q.last);
    EndingStarts(q.local, q.last, x);
    SpeltStarts(r, y);
    ScopeSplit(r, y);
    var more := Spelt(r.(scope := r.scope[1..])) + y;
    SpeltStarts(r.(scope := r.scope[1..]), y);
    assert ("E" + x)[0] == 'E' != more[0];
    if Counted(q.last) + ("E" + x) == Counted(r.scope[0]) + more {
      CountedCancels(q.last, "E" + x, r.scope[0], more);
    }
  }

  /** Read from its front, one text spells one name. */
  lemma {:induction false} OneReading(q: Reading, r: Reading, x: string, y: string)
    requires Sound(q) && Sound(r) && Spelt(q) + x == Spelt(r) + y
    ensures q == r && x == y
    decreases |q.scope|
  {
    if q.scope == [] && r.scope == [] {
      assert Spelt(q) == Ending(q.local, q.last) && Spelt(r) == Ending(r.local, r.last);
      EndingCancels(q.local, q.last, x, r.local, r.last, y);
    } else if q.scope == [] {
      NoShorter(q, r, x, y);
    } else if r.scope == [] {
      NoShorter(r, q, y, x);
    } else {
      var p, s := q.(scope := q.scope[1..]), r.(scope := r.scope[1..]);
      ScopeSplit(q, x);
      ScopeSplit(r, y);
      CountedCancels(q.scope[0], Spelt(p) + x, r.scope[0], Spelt(s) + y);
      OneReading(p, s, x, y);
    }
  }

  // --- Main results -------------------------------------------------------------------

  /** One mangled name begins another, whatever parameters follow it, exactly when the
      two say the same. */
  lemma PrefixFree(p: seq<string>, q: seq<string>, suffix: string)
    requires Qualified(p) && Qualified(q)
    ensures Mangle(p) <= Mangle(q) + suffix <==> Read(p) == Read(q)
    ensures Mangle(p) == Mangle(q) <==> Read(p) == Read(q)
  {
    MangleSpells(p);
    MangleSpells(q);
    if Mangle(p) <= Mangle(q) + suffix {
      FrontIsName(Read(p), Read(q), suffix);
    }
    if Mangle(p) == Mangle(q) {
      FrontIsName(Read(p), Read(q), "");
    }
  }

  lemma FrontIsName(p: Reading, q: Reading, suffix: string)
    requires Sound(p) && Sound(q) && "_ZN" + Spelt(p) <= "_ZN" + Spelt(q) + suffix
    ensures p == q
  {
    var s := Spelt(q) + suffix;
    assert ("_ZN" + Spelt(q) + suffix)[3..] == s && ("_ZN" + Spelt(p))[3..] == Spelt(p);
    assert Spelt(p) == s[..|Spelt(p)|];
    OneReading(p, q, s[|Spelt(p)|..], suffix);
  }

  /** A demangler that knows nothing of how names are mangled: `_ZN`, then texts under
      their lengths up to an `E`, the last marked `L` if the name is local. */
  function Demangled(s: string): Option<Reading> {
    if "_ZN" <= s then Components(s[3..]) else None
  }

  function Components(t: string): Option<Reading>
    decreases |t|
  {
    var local := t != "" && t[0] == 'L';
    var u := if local then t[1..] else t;
    var n := LeadingDigits(u);
    if n == 0 then None
    else
      var end := n + Value(u[..n]);
      if end >= |u| then None
      else if u[end] == 'E' then Some(Reading([], local, u[n..end]))
      else
        match Components(u[end..])
        case None => None
        case Some(r) => if local then None else Some(r.(scope := [u[n..end]] + r.scope))
  }

  /** It reads a mangled name, with anything after it, as the scope's texts, the name,
      and whether an anonymous namespace makes it local. */
  lemma DemanglesBack(parts: seq<string>, suffix: string)
    requires Qualified(parts)
    ensures Demangled(Mangle(parts) + suffix) == Some(Read(parts))
  {
    MangleSpells(parts);
    ComponentsBack(Read(parts), suffix);
    FrontOff("_ZN", Spelt(Read(parts)), suffix);
  }

  lemma FrontOff(p: string, s: string, t: string)
    ensures p <= p + s + t && (p + s + t)[|p|..] == s + t
  {}

  lemma {:induction false} ComponentsBack(r: Reading, rest: string)
    requires Sound(r)
    ensures Components(Spelt(r) + rest) == Some(r)
    decreases |r.scope|
  {
    if r.scope == [] {
      assert Spelt(r) == Ending(r.local, r.last);
      EndingStarts(r.local, r.last, rest);
      LastBack(Spelt(r) + rest, r.local, r.last, rest);
    } else {
      ComponentsBack(r.(scope := r.scope[1..]), rest);
      ScopeBack(r, rest);
    }
  }

  lemma ScopeBack(r: Reading, rest: string)
    requires Sound(r) && r.scope != [] && Components(Spelt(r.(scope := r.scope[1..])) + rest) == Some(r.(scope := r.scope[1..]))
    ensures Components(Spelt(r) + rest) == Some(r)
  {
    var inner := r.(scope := r.scope[1..]);
    ScopeSplit(r, rest);
    SpeltStarts(inner, rest);
    FirstBack(Spelt(r) + rest, r.scope[0], Spelt(inner) + rest, inner);
    ScopeRejoined(r);
  }

  lemma ScopeRejoined(r: Reading)
    requires r.scope != []
    ensures r.(scope := r.scope[1..]).(scope := [r.scope[0]] + r.scope[1..]) == r
  {
    assert [r.scope[0]] + r.scope[1..] == r.scope;
  }

  /** One counted text, as the demangler takes it. */
  lemma TakesCounted(s: string, text: string, tail: string)
    requires Ordinary(text) && s == Counted(text) + tail && tail != ""
    ensures var n, end := LeadingDigits(s), LeadingDigits(s) + |text|;
            && s[0] != 'L' && n > 0 && Value(s[..n]) == |text| && end < |s|
            && s[n..end] == text && s[end..] == tail && s[end] == tail[0]
  {
    CountedParts(text, tail);
    DecimalIsDigits(|text|);
    var end := |Decimal(|text|)| + |text|;
    assert s[end..][0] == s[end];
  }

  lemma FirstBack(s: string, text: string, tail: string, inner: Reading)
    requires Ordinary(text) && s == Counted(text) + tail && tail != "" && tail[0] != 'E' && Components(tail) == Some(inner)
    ensures Components(s) == Some(inner.(scope := [text] + inner.scope))
  {
    TakesCounted(s, text, tail);
  }

  lemma LastBack(s: string, local: bool, last: string, rest: string)
    requires Ordinary(last) && s == if local then "L" + (Counted(last) + ("E" + rest)) else Counted(last) + ("E" + rest)
    ensures Components(s) == Some(Reading([], local, last))
  {
    var u := Counted(last) + ("E" + rest);
    TakesCounted(u, last, "E" + rest);
    assert local ==> s[0] == 'L' && s[1..] == u;
  }

  /** As the compiler spells one. */
  lemma AsSpelt()
    ensures Mangle(["nova", "(anonymous)", "cpu"]) == "_ZN4nova12_GLOBAL__N_1L3cpuE"
  {
    var parts := ["nova", "(anonymous)", "cpu"];
    assert parts[1] == ANONYMOUS && parts[..2] == ["nova", ANONYMOUS];
    TwoScopes("nova", ANONYMOUS);
    Lengths();
    FivePieces();
  }

  lemma TwoScopes(a: string, b: string)
    ensures Encoded([a, b]) == Counted(Text(a)) + Counted(Text(b))
  {
    assert [a, b][1..] == [b] && [b][1..] == [];
    assert Encoded([b]) == Counted(Text(b)) + Encoded([]) == Counted(Text(b));
  }

  lemma Lengths()
    ensures Counted("nova") == "4" + "nova" && Counted(MARKER) == "12" + "_GLOBAL__N_1" && Counted("cpu") == "3" + "cpu"
  {
    assert Decimal(1) == "1" && Decimal(12) == "1" + "2" && Decimal(4) == "4" && Decimal(3) == "3";
  }

  lemma FivePieces()
    ensures "_ZN" + ((("4" + "nova") + ("12" + "_GLOBAL__N_1")) + ("L" + ("3" + "cpu") + "E")) == "_ZN4nova12_GLOBAL__N_1L3cpuE"
  {}

  predicate Spelled(parts: seq<string>) { MARKER !in parts }

  /** Names that do not spell the anonymous namespace's own marker out mangle apart. */
  lemma Injective(p: seq<string>, q: seq<string>)
    requires Qualified(p) && Qualified(q) && Spelled(p) && Spelled(q) && Mangle(p) == Mangle(q)
    ensures p == q
  {
    PrefixFree(p, q, "");
    forall i | 0 <= i < |p| ensures |q| == |p| && p[i] == q[i] {
      assert |Read(p).scope| == |p| - 1 && |Read(q).scope| == |q| - 1;
      if i < |p| - 1 {
        assert Read(p).scope[i] == Text(p[i]) && Read(q).scope[i] == Text(q[i]);
        assert p[i] in p && q[i] in q;
      }
    }
  }

  /** A name that does spell it out can meet another's. */
  lemma MarkerCollides()
    ensures var p, q := [ANONYMOUS, MARKER, "x"], [MARKER, ANONYMOUS, "x"];
            Qualified(p) && Qualified(q) && p != q && Mangle(p) == Mangle(q)
  {
    var p, q := [ANONYMOUS, MARKER, "x"], [MARKER, ANONYMOUS, "x"];
    assert p[0] != q[0];
    assert p[1] == MARKER && q[1] == ANONYMOUS;
    var a, b := [ANONYMOUS, MARKER], [MARKER, ANONYMOUS];
    assert p[..2] == a && q[..2] == b;
    assert a[1..] == [MARKER] && b[1..] == [ANONYMOUS];
    assert [MARKER][1..] == [] && [ANONYMOUS][1..] == [];
    assert Encoded([ANONYMOUS]) == Counted(MARKER) + Encoded([]) == Encoded([MARKER]);
    assert Encoded(a) == Counted(MARKER) + Encoded([MARKER]);
    assert Encoded(b) == Counted(MARKER) + Encoded([ANONYMOUS]);
  }

  /** A name of any length; one component alone is its own symbol, and the prefix of
      mangled ones is reserved. */
  predicate Nameable(parts: seq<string>) {
    && parts != [] && parts[|parts| - 1] != ANONYMOUS
    && (forall i :: 0 <= i < |parts| ==> Ordinary(parts[i]))
    && (|parts| == 1 ==> !("_ZN" <= parts[0]))
  }

  /** What may follow a name in its symbol: an unmangled name is the whole of it. */
  predicate Follows(parts: seq<string>, suffix: string) { |parts| == 1 ==> suffix == "" }

  /** Every symbol that begins with this name's mangling says the same name. */
  ghost predicate BeginsOnlyItself(p: seq<string>)
    requires p != []
  {
    forall q, suffix :: Nameable(q) && Follows(q, suffix) && Mangle(p) <= Mangle(q) + suffix ==> Read(p) == Read(q)
  }

  /** A name begins no other name's symbol exactly when it is mangled, that is, has
      two components or more. */
  lemma OneNameIff(p: seq<string>)
    requires Nameable(p)
    ensures BeginsOnlyItself(p) <==> |p| >= 2
  {
    if |p| >= 2 {
      forall q, suffix | Nameable(q) && Follows(q, suffix) && Mangle(p) <= Mangle(q) + suffix ensures Read(p) == Read(q) {
        if |q| >= 2 {
          PrefixFree(p, q, suffix);
        } else {
          assert q[0] + suffix == q[0];
          NotMangled(p, q[0]);
        }
      }
    } else {
      var q := BeginsAnother(p);
      assert Follows(q, "") && Mangle(p) <= Mangle(q) + "";
    }
  }

  lemma BeginsAnother(p: seq<string>) returns (q: seq<string>)
    requires Nameable(p) && |p| == 1
    ensures Nameable(q) && |q| == 1 && Mangle(p) <= Mangle(q) && Read(p) != Read(q)
  {
    q := [p[0] + "x"];
    LongerName(p[0]);
    assert Read(p).last != Read(q).last;
  }

  lemma NotMangled(p: seq<string>, s: string)
    requires |p| >= 2 && !("_ZN" <= s)
    ensures !(Mangle(p) <= s)
  {
    assert "_ZN" <= Mangle(p);
  }

  /** One letter more is another name, and still not a mangled one. */
  lemma LongerName(name: string)
    requires Ordinary(name) && !("_ZN" <= name)
    ensures var longer := name + "x";
            Ordinary(longer) && longer != ANONYMOUS && !("_ZN" <= longer) && name <= longer && longer != name
  {
    var longer := name + "x";
    assert longer[|name|] == 'x' && ANONYMOUS[10] == ')';
  }

  // --- Looking a function up --------------------------------------------------------------

  datatype Symbol = Symbol(value: nat, size: nat)
  datatype Found = Missing | Overloaded | Address(value: nat)

  /** Every entry the name's mangling begins decides the answer together. */
  method AddressOf(entries: map<string, Symbol>, parts: seq<string>) returns (found: Found)
    requires parts != []
    ensures found.Missing? <==> forall name :: name in entries ==> !(Mangle(parts) <= name)
    ensures found.Address? ==>
            && (exists name :: name in entries && Mangle(parts) <= name)
            && forall name :: name in entries && Mangle(parts) <= name ==> entries[name].value == found.value
    ensures found.Overloaded? ==>
            exists a, b :: a in entries && b in entries && Mangle(parts) <= a && Mangle(parts) <= b
                           && entries[a].value != entries[b].value
  {
    var prefix := Mangle(parts);
    var matches := set name | name in entries && prefix <= name;
    if matches == {} {
      forall name | name in entries ensures !(prefix <= name) {
        assert name !in matches;
      }
      return Missing;
    }
    var first :| first in matches;
    var addresses := set name | name in matches :: entries[name].value;
    if addresses != {entries[first].value} {
      var other :| other in addresses && other != entries[first].value;
      ghost var b :| b in matches && entries[b].value == other;
      return Overloaded;
    }
    forall name | name in matches ensures entries[name].value == entries[first].value {
      assert entries[name].value in addresses;
    }
    return Address(entries[first].value);
  }

  /** Among functions with qualified names, whatever their parameters, a lookup sees
      the ones that say what was asked and no other. */
  lemma LookupIsExact(q: seq<string>, parameters: string, p: seq<string>)
    requires Qualified(p) && Qualified(q) && Spelled(p) && Spelled(q)
    ensures Mangle(p) <= Mangle(q) + parameters <==> p == q
  {
    PrefixFree(p, q, parameters);
    if Mangle(p) <= Mangle(q) + parameters {
      Injective(p, q);
    }
  }
}
