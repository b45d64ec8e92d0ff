/** String helpers of the wallet backend: stripping markup from user input,
    the UPI-id format check, the substring test used on recipient ids, and the
    generation of a new user's payment alias. Strings are sequences of chars. */
module Text {

  /** The characters sanitizeInput removes: the class [<>{}]. */
  predicate IsMarkup(c: char) {
    c == '<' || c == '>' || c == '{' || c == '}'
  }

  /** sanitizeInput: every markup character is dropped and every other
      character is kept; the counts of kept characters do not change. */
  function SanitizeInput(s: string): (r: string)
    ensures |r| <= |s|
    ensures forall i :: 0 <= i < |r| ==> !IsMarkup(r[i])
    ensures forall c :: !IsMarkup(c) ==> multiset(r)[c] == multiset(s)[c]
  {
    if s == [] then []
    else
      assert s == [s[0]] + s[1..];
      if IsMarkup(s[0]) then SanitizeInput(s[1..])
      else [s[0]] + SanitizeInput(s[1..])
  }

  /** Sanitising distributes over concatenation: together with the one-character
      case this says the kept characters stay in their original order. */
  lemma {:induction false} SanitizeConcat(a: string, b: string)
    ensures SanitizeInput(a + b) == SanitizeInput(a) + SanitizeInput(b)
  {
    if a == [] {
      assert a + b == b;
    } else {
      assert (a + b)[0] == a[0];
      assert (a + b)[1..] == a[1..] + b;
      SanitizeConcat(a[1..], b);
    }
  }

  /** On one character: a markup character disappears, any other one stays. */
  lemma SanitizeChar(c: char)
    ensures SanitizeInput([c]) == if IsMarkup(c) then [] else [c]
  {
    assert [c][1..] == [];
  }

  /** A string is left alone exactly when it holds no markup character. */
  lemma {:induction false} SanitizeFixed(s: string)
    ensures SanitizeInput(s) == s <==> forall i :: 0 <= i < |s| ==> !IsMarkup(s[i])
  {
    if s != [] && forall i :: 0 <= i < |s| ==> !IsMarkup(s[i]) {
      assert !IsMarkup(s[0]);
      assert forall i :: 0 <= i < |s[1..]| ==> !IsMarkup(s[1..][i]) by {
        forall i | 0 <= i < |s[1..]| ensures !IsMarkup(s[1..][i]) {
          assert s[1..][i] == s[i + 1];
        }
      }
      SanitizeFixed(s[1..]);
    }
  }

  /** Sanitising twice is sanitising once. */
  lemma SanitizeIdempotent(s: string)
    ensures SanitizeInput(SanitizeInput(s)) == SanitizeInput(s)
  {
    SanitizeFixed(SanitizeInput(s));
  }

  /** The character class [a-zA-Z0-9._-] of a UPI id. */
  predicate IsUpiChar(c: char) {
    ('a' <= c <= 'z') || ('A' <= c <= 'Z') || ('0' <= c <= '9') || c == '.' || c == '_' || c == '-'
  }

  predicate AllUpi(s: string) {
    forall i :: 0 <= i < |s| ==> IsUpiChar(s[i])
  }

  /** s has an '@' at index k, only UPI characters before it and a non-empty
      run of UPI characters after it. */
  predicate AtSplit(s: string, k: int) {
    0 <= k < |s| - 1 && s[k] == '@' && AllUpi(s[..k]) && AllUpi(s[k + 1..])
  }

  /** The language of /^[a-zA-Z0-9._-]+@[a-zA-Z0-9._-]+$/ at split point k:
      both runs non-empty. */
  predicate UpiSplit(s: string, k: int) {
    0 < k && AtSplit(s, k)
  }

  /** How far a left-to-right match of the UPI-id pattern has got. */
  datatype Phase = Start | InLocal | AfterAt | InDomain | Dead

  function Step(p: Phase, c: char): Phase {
    match p
    case Start => if IsUpiChar(c) then InLocal else Dead
    case InLocal => if IsUpiChar(c) then InLocal else if c == '@' then AfterAt else Dead
    case AfterAt => if IsUpiChar(c) then InDomain else Dead
    case InDomain => if IsUpiChar(c) then InDomain else Dead
    case Dead => Dead
  }

  function Run(p: Phase, s: string): bool
    decreases s
  {
    if s == [] then p == InDomain else Run(Step(p, s[0]), s[1..])
  }

  lemma AllUpiCons(s: string)
    requires s != []
    ensures AllUpi(s) <==> IsUpiChar(s[0]) && AllUpi(s[1..])
  {
    if IsUpiChar(s[0]) && AllUpi(s[1..]) {
      forall i | 0 < i < |s| ensures IsUpiChar(s[i]) {
        assert s[i] == s[1..][i - 1];
      }
    }
  }

  lemma {:induction false} RunDead(s: string)
    ensures !Run(Dead, s)
  {
    if s != [] { RunDead(s[1..]); }
  }

  lemma {:induction false} RunInDomain(s: string)
    ensures Run(InDomain, s) <==> AllUpi(s)
  {
    if s != [] {
      AllUpiCons(s);
      RunInDomain(s[1..]);
      if !IsUpiChar(s[0]) { RunDead(s[1..]); }
    }
  }

  lemma RunAfterAt(s: string)
    ensures Run(AfterAt, s) <==> |s| > 0 && AllUpi(s)
  {
    if s != [] {
      AllUpiCons(s);
      RunInDomain(s[1..]);
      if !IsUpiChar(s[0]) { RunDead(s[1..]); }
    }
  }

  /** An accepted split of s[1..] at j is an accepted split of s at j + 1,
      when s[0] is a UPI character; and back. */
  lemma AtSplitShift(s: string, k: int)
    requires s != [] && IsUpiChar(s[0]) && 0 < k
    ensures AtSplit(s, k) <==> AtSplit(s[1..], k - 1)
  {
    var t := s[1..];
    if 0 <= k - 1 < |t| - 1 {
      assert s[..k][1..] == t[..k - 1];
      assert s[k + 1..] == t[k..];
      assert s[..k] != [] && s[..k][0] == s[0];
      AllUpiCons(s[..k]);
    }
  }

  lemma {:induction false} RunInLocal(s: string)
    ensures Run(InLocal, s) <==> exists k :: AtSplit(s, k)
  {
    if s == [] {
      return;
    }
    var t := s[1..];
    if s[0] == '@' {
      RunAfterAt(t);
      if Run(InLocal, s) {
        assert s[..0] == [] && s[1..] == t;
        assert AtSplit(s, 0);
      }
      if exists k :: AtSplit(s, k) {
        var k :| AtSplit(s, k);
        assert s[k + 1..] == t;
      }
    } else if IsUpiChar(s[0]) {
      RunInLocal(t);
      if Run(InLocal, s) {
        var j :| AtSplit(t, j);
        AtSplitShift(s, j + 1);
      }
      if exists k :: AtSplit(s, k) {
        var k :| AtSplit(s, k);
        AtSplitShift(s, k);
      }
    } else {
      RunDead(t);
    }
  }

  /** The left-to-right match from Start accepts exactly a non-empty run of
      [A-Za-z0-9._-], one '@', and another non-empty run of the same class. */
  lemma RunMatchesPattern(s: string)
    ensures Run(Start, s) <==> exists k :: UpiSplit(s, k)
  {
    if s != [] && IsUpiChar(s[0]) {
      var t := s[1..];
      RunInLocal(t);
      if Run(Start, s) {
        var j :| AtSplit(t, j);
        AtSplitShift(s, j + 1);
        assert UpiSplit(s, j + 1);
      }
      if exists k :: UpiSplit(s, k) {
        var k :| UpiSplit(s, k);
        AtSplitShift(s, k);
      }
    } else if s != [] {
      RunDead(s[1..]);
    }
  }

  /** validateUpiId, the anchored regex test /^[a-zA-Z0-9._-]+@[a-zA-Z0-9._-]+$/
      run as a left-to-right match: it accepts exactly the strings with a
      split point between two non-empty runs of the class. */
  function ValidateUpiId(s: string): (r: bool)
    ensures r <==> exists k :: UpiSplit(s, k)
  {
    RunMatchesPattern(s);
    Run(Start, s)
  }

  /** A string the UPI-id check accepts holds no markup, so sanitising it
      changes nothing: transfer-real looks up exactly the id it validated. */
  lemma ValidUpiIdIsSanitized(s: string)
    requires ValidateUpiId(s)
    ensures SanitizeInput(s) == s
  {
    var k :| UpiSplit(s, k);
    forall i | 0 <= i < |s| ensures !IsMarkup(s[i]) {
      if i < k { assert s[i] == s[..k][i]; }
      else if i > k { assert s[i] == s[k + 1..][i - k - 1]; }
    }
    SanitizeFixed(s);
  }

  /** sub occurs in s starting at index i. */
  predicate OccursAt(s: string, sub: string, i: int) {
    0 <= i <= |s| - |sub| && s[i..i + |sub|] == sub
  }

  lemma SliceOfTail(s: string, j: int, n: int)
    requires 1 <= |s| && 0 <= j && 0 <= n && j + n <= |s| - 1
    ensures s[1..][j..j + n] == s[j + 1..j + 1 + n]
  {
    forall k | j + 1 <= k < j + 1 + n ensures s[1..][j..j + n][k - j - 1] == s[k] {
      assert s[1..][k - 1] == s[k];
    }
  }

  /** When sub is not a prefix of s, it occurs in s exactly when it occurs
      in the tail of s. */
  lemma OccursInTail(s: string, sub: string)
    requires s != [] && !(sub <= s)
    ensures (exists i :: OccursAt(s, sub, i)) <==> (exists j :: OccursAt(s[1..], sub, j))
  {
    if exists j :: OccursAt(s[1..], sub, j) {
      var j :| OccursAt(s[1..], sub, j);
      SliceOfTail(s, j, |sub|);
      assert OccursAt(s, sub, j + 1);
    }
    if exists i :: OccursAt(s, sub, i) {
      var i :| OccursAt(s, sub, i);
      assert i != 0;
      SliceOfTail(s, i - 1, |sub|);
      assert OccursAt(s[1..], sub, i - 1);
    }
  }

  /** String.prototype.includes: sub occurs somewhere in s. */
  function Includes(s: string, sub: string): (r: bool)
    ensures r <==> exists i :: OccursAt(s, sub, i)
  {
    if sub <= s then
      assert OccursAt(s, sub, 0);
      true
    else if s == [] then false
    else
      OccursInTail(s, sub);
      Includes(s[1..], sub)
  }

  /** email.split('@')[0]: the text before the first '@', or all of it. */
  function LocalPart(email: string): (r: string)
    ensures r <= email
    ensures forall i :: 0 <= i < |r| ==> r[i] != '@'
    ensures |r| < |email| ==> email[|r|] == '@'
  {
    if email == [] || email[0] == '@' then []
    else [email[0]] + LocalPart(email[1..])
  }

  /** The domain every generated alias ends with. */
  const AliasDomain: string := "@cryptopay"

  predicate IsHexDigit(c: char) {
    ('0' <= c <= '9') || ('a' <= c <= 'f')
  }

  /** What crypto.randomBytes(4).toString('hex') yields: 8 lower-case hex digits. */
  predicate IsHexSuffix(s: string) {
    |s| == 8 && forall i :: 0 <= i < |s| ==> IsHexDigit(s[i])
  }

  /** The alias signup gives a new user: local part of the email, '-',
      the random suffix and the domain. */
  function MakeAlias(email: string, suffix: string): string {
    LocalPart(email) + "-" + suffix + AliasDomain
  }

  lemma AllUpiConcat(x: string, y: string)
    ensures AllUpi(x + y) <==> AllUpi(x) && AllUpi(y)
  {
    if AllUpi(x + y) {
      forall i | 0 <= i < |x| ensures IsUpiChar(x[i]) {
        assert x[i] == (x + y)[i];
      }
      forall i | 0 <= i < |y| ensures IsUpiChar(y[i]) {
        assert y[i] == (x + y)[|x| + i];
      }
    }
  }

  /** Every generated alias contains the internal domain, so transfer-testing's
      "@cryptopay" test admits it. */
  lemma AliasHasDomain(email: string, suffix: string)
    ensures Includes(MakeAlias(email, suffix), AliasDomain)
  {
    var a := MakeAlias(email, suffix);
    var p := |LocalPart(email)| + 1 + |suffix|;
    assert a[p..p + |AliasDomain|] == AliasDomain;
    assert OccursAt(a, AliasDomain, p);
    assert Includes(a, AliasDomain);
  }

  /** Where the pieces of a generated alias sit: the local part and the
      suffix before index |local part| + 9, the '@' of the domain at it. */
  lemma AliasLayout(email: string, suffix: string)
    requires |suffix| == 8
    ensures var p := |LocalPart(email)| + 9;
            && |MakeAlias(email, suffix)| == p + 10
            && MakeAlias(email, suffix)[..p] == LocalPart(email) + ("-" + suffix)
            && MakeAlias(email, suffix)[p] == '@'
            && MakeAlias(email, suffix)[p + 1..] == "cryptopay"
  {
    var lp := LocalPart(email);
    var p := |lp| + 9;
    var head := lp + "-" + suffix;
    assert MakeAlias(email, suffix) == head + AliasDomain;
    assert head == lp + ("-" + suffix);
  }

  /** A generated alias passes the UPI-id check exactly when the email's local
      part uses only [A-Za-z0-9._-]. */
  lemma AliasValidity(email: string, suffix: string)
    requires IsHexSuffix(suffix)
    ensures ValidateUpiId(MakeAlias(email, suffix)) <==> AllUpi(LocalPart(email))
  {
    var lp := LocalPart(email);
    var a := MakeAlias(email, suffix);
    var p := |lp| + 9;
    AliasLayout(email, suffix);
    assert AllUpi("-" + suffix);
    AllUpiConcat(lp, "-" + suffix);
    assert AllUpi(a[p + 1..]);
    if AllUpi(lp) {
      assert UpiSplit(a, p);
    }
    if exists k :: UpiSplit(a, k) {
      var k :| UpiSplit(a, k);
      assert k == p;
    }
  }

  function DigitChar(d: nat): char
    requires d < 10
  {
    ('0' as int + d) as char
  }

  predicate AllDigits(s: string) {
    forall i :: 0 <= i < |s| ==> '0' <= s[i] <= '9'
  }

  /** The number a string of decimal digits denotes, most significant first. */
  function DecimalValue(s: string): nat
    requires AllDigits(s)
  {
    if s == [] then 0 else DecimalValue(s[..|s| - 1]) * 10 + (s[|s| - 1] as int - '0' as int)
  }

  /** The decimal text of an id, as a template literal prints it: digits
      that denote n, with no leading zero. */
  function NatText(n: nat): (r: string)
    ensures |r| > 0 && AllDigits(r)
    ensures DecimalValue(r) == n
    ensures r[0] == '0' ==> r == "0"
  {
    if n < 10 then [DigitChar(n)]
    else
      var p := NatText(n / 10);
      var r := p + [DigitChar(n % 10)];
      assert r[..|r| - 1] == p;
      r
  }

  /** Different ids give different texts, so "Received from user N" names
      the sender. */
  lemma NatTextInjective(m: nat, n: nat)
    ensures NatText(m) == NatText(n) <==> m == n
  {
  }
}
