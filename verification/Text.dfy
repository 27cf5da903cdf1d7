/** Strings as the program has them, sequences of bytes (here characters below
    256): their order, and splitting into words. */
module Text {

  type Byte = c: char | c < '\U{0100}' witness 'a'

  type ByteString = seq<Byte>

  // ----- byte order -----

  predicate Less(a: ByteString, b: ByteString) {
    b != [] && (a == [] || a[0] < b[0] || (a[0] == b[0] && Less(a[1..], b[1..])))
  }

  lemma {:induction false} LessIsTotal(a: ByteString, b: ByteString)
    ensures Less(a, b) || Less(b, a) || a == b
    ensures !(Less(a, b) && Less(b, a))
  {
    if a != [] && b != [] && a[0] == b[0] {
      LessIsTotal(a[1..], b[1..]);
      assert a == [a[0]] + a[1..] && b == [b[0]] + b[1..];
    }
  }

  lemma {:induction false} LessIsTransitive(a: ByteString, b: ByteString, c: ByteString)
    requires Less(a, b) && Less(b, c)
    ensures Less(a, c)
  {
    if a != [] && a[0] == b[0] == c[0] {
      LessIsTransitive(a[1..], b[1..], c[1..]);
    }
  }

  lemma {:induction false} LessIsIrreflexive(a: ByteString)
    ensures !Less(a, a)
  {
    if a != [] {
      LessIsIrreflexive(a[1..]);
    }
  }

  ghost predicate Ascending(keys: seq<ByteString>) {
    forall i, j :: 0 <= i < j < |keys| ==> Less(keys[i], keys[j])
  }

  function Elements(keys: seq<ByteString>): set<ByteString> {
    set k | k in keys
  }

  /** There is only one ascending list of a set of keys. */
  lemma {:induction false} AscendingIsUnique(a: seq<ByteString>, b: seq<ByteString>)
    requires Ascending(a) && Ascending(b) && Elements(a) == Elements(b)
    ensures a == b
  {
    NoElements(a);
    NoElements(b);
    if a != [] {
      assert a[0] in Elements(a) && b[0] in Elements(b);
      FirstIsLeast(a);
      FirstIsLeast(b);
      LessIsTotal(a[0], b[0]);
      TailElements(a);
      TailElements(b);
      AscendingIsUnique(a[1..], b[1..]);
      assert a == [a[0]] + a[1..] && b == [b[0]] + b[1..];
    }
  }

  lemma NoElements(a: seq<ByteString>)
    ensures Elements(a) == {} <==> a == []
  {
    if a != [] {
      assert a[0] in Elements(a);
    }
  }

  lemma FirstIsLeast(a: seq<ByteString>)
    requires Ascending(a) && a != []
    ensures forall k :: k in Elements(a) ==> k == a[0] || Less(a[0], k)
  {
  }

  lemma TailElements(a: seq<ByteString>)
    requires Ascending(a) && a != []
    ensures Elements(a[1..]) == Elements(a) - {a[0]}
  {
    LessIsIrreflexive(a[0]);
  }

  /** Insert a key into an ascending list. */
  method InsertKey(keys: seq<ByteString>, key: ByteString) returns (more: seq<ByteString>)
    requires Ascending(keys) && key !in keys
    ensures Ascending(more) && Elements(more) == Elements(keys) + {key}
  {
    var at := 0;
    while at < |keys| && Less(keys[at], key)
      invariant 0 <= at <= |keys|
      invariant forall i :: 0 <= i < at ==> Less(keys[i], key)
    {
      at := at + 1;
    }
    more := keys[..at] + [key] + keys[at..];
    forall i | at <= i < |keys| ensures Less(key, keys[i]) {
      LessIsTotal(keys[at], key);
      if i > at {
        LessIsTransitive(key, keys[at], keys[i]);
      }
    }
  }

  /** Index of the first `x`, |s| when there is none. */
  function IndexOf<T(==)>(s: seq<T>, x: T): (i: nat)
    ensures i <= |s|
  {
    if s == [] || s[0] == x then 0 else 1 + IndexOf(s[1..], x)
  }

  // ----- words -----

  predicate IsSpace(c: char) {
    c == ' ' || c == '\t' || c == '\n' || c == '\r' || c == '\U{000B}' || c == '\U{000C}'
  }

  predicate IsWord(w: ByteString) {
    w != [] && forall i :: 0 <= i < |w| ==> !IsSpace(w[i])
  }

  ghost predicate AreWords(words: seq<ByteString>) {
    forall i :: 0 <= i < |words| ==> IsWord(words[i])
  }

  function WordLength(s: ByteString): (n: nat)
    ensures n <= |s| && (n < |s| ==> IsSpace(s[n]))
    ensures forall i :: 0 <= i < n ==> !IsSpace(s[i])
  {
    if s == [] || IsSpace(s[0]) then 0 else 1 + WordLength(s[1..])
  }

  /** The words between runs of white space. */
  function Words(s: ByteString): seq<ByteString>
    decreases |s|
  {
    if s == [] then []
    else if IsSpace(s[0]) then Words(s[1..])
    else [s[..WordLength(s)]] + Words(s[WordLength(s)..])
  }

  function JoinWords(words: seq<ByteString>): ByteString {
    if words == [] then []
    else if |words| == 1 then words[0]
    else words[0] + [' '] + JoinWords(words[1..])
  }

  lemma {:induction false} WordsAreWords(s: ByteString)
    ensures AreWords(Words(s))
    decreases |s|
  {
    if s != [] {
      WordsAreWords(if IsSpace(s[0]) then s[1..] else s[WordLength(s)..]);
    }
  }

  lemma WordEnds(w: ByteString, rest: ByteString)
    requires IsWord(w) && (rest != [] ==> IsSpace(rest[0]))
    ensures WordLength(w + rest) == |w|
  {
    var s := w + rest;
    assert forall i :: 0 <= i < |w| ==> s[i] == w[i];
    assert rest != [] ==> s[|w|] == rest[0];
  }

  lemma WordThenSpace(w: ByteString, rest: ByteString)
    requires IsWord(w) && (rest != [] ==> IsSpace(rest[0]))
    ensures Words(w + rest) == [w] + Words(rest)
  {
    hide Words, WordLength;
    WordEnds(w, rest);
    FirstWord(w + rest);
    assert (w + rest)[..|w|] == w && (w + rest)[|w|..] == rest;
  }

  lemma FirstWord(s: ByteString)
    requires s != [] && !IsSpace(s[0])
    ensures Words(s) == [s[..WordLength(s)]] + Words(s[WordLength(s)..])
  {
  }

  lemma SkipSpace(rest: ByteString)
    ensures Words([' '] + rest) == Words(rest)
  {
    assert ([' '] + rest)[1..] == rest;
  }

  lemma {:induction false} WordsOfJoin(words: seq<ByteString>)
    requires AreWords(words)
    ensures Words(JoinWords(words)) == words
  {
    hide IsWord, WordLength;
    if |words| == 1 {
      WordThenSpace(words[0], []);
      assert words[0] + [] == words[0];
    } else if words != [] {
      var rest := JoinWords(words[1..]);
      WordsOfJoin(words[1..]);
      WordThenSpace(words[0], [' '] + rest);
      SkipSpace(rest);
      assert words[0] + [' '] + rest == words[0] + ([' '] + rest);
    }
  }

  /** What stands between single spaces. */
  function SplitAtSpaces(s: ByteString): seq<ByteString>
    decreases |s|
  {
    var i := IndexOf<Byte>(s, ' ');
    if i == |s| then [s] else [s[..i]] + SplitAtSpaces(s[i + 1..])
  }

  lemma {:induction false} IndexOfSpace(w: ByteString, rest: ByteString)
    requires IsWord(w) && (rest != [] ==> rest[0] == ' ')
    ensures IndexOf<Byte>(w + rest, ' ') == |w|
  {
    if |w| == 1 {
      assert (w + rest)[1..] == rest;
    } else {
      assert (w + rest)[1..] == w[1..] + rest;
      IndexOfSpace(w[1..], rest);
    }
  }

  /** Joined words stand one single space apart. */
  lemma {:induction false} JoinIsSingleSpaced(words: seq<ByteString>)
    requires AreWords(words) && words != []
    ensures SplitAtSpaces(JoinWords(words)) == words
  {
    hide IndexOf;
    if |words| == 1 {
      IndexOfSpace(words[0], []);
      assert words[0] + [] == words[0];
    } else {
      var rest := JoinWords(words[1..]);
      JoinIsSingleSpaced(words[1..]);
      IndexOfSpace(words[0], [' '] + rest);
      var text := words[0] + ([' '] + rest);
      assert JoinWords(words) == text && text[..|words[0]|] == words[0] && text[|words[0]| + 1..] == rest;
    }
  }

  // ----- sorting words -----

  ghost predicate NonDescending(words: seq<ByteString>) {
    forall i, j :: 0 <= i < j < |words| ==> !Less(words[j], words[i])
  }

  /** Insertion sort; only what it yields matters here. */
  function SortWords(words: seq<ByteString>): (sorted: seq<ByteString>)
    ensures multiset(sorted) == multiset(words)
  {
    if words == [] then []
    else
      assert words == [words[0]] + words[1..];
      InsertWord(words[0], SortWords(words[1..]))
  }

  function InsertWord(w: ByteString, words: seq<ByteString>): (more: seq<ByteString>)
    ensures multiset(more) == multiset(words) + multiset{w}
  {
    if words == [] || !Less(words[0], w) then [w] + words
    else
      assert words == [words[0]] + words[1..];
      [words[0]] + InsertWord(w, words[1..])
  }

  lemma NotLessIsTransitive(a: ByteString, b: ByteString, c: ByteString)
    requires !Less(b, a) && !Less(c, b)
    ensures !Less(c, a)
  {
    LessIsTotal(a, b);
    LessIsTotal(b, c);
    if Less(a, b) && Less(b, c) {
      LessIsTransitive(a, b, c);
      LessIsTotal(a, c);
    }
  }

  ghost predicate NoneBelow(w: ByteString, words: seq<ByteString>) {
    forall x :: x in words ==> !Less(x, w)
  }

  lemma ConsIsSorted(w: ByteString, words: seq<ByteString>)
    requires NonDescending(words) && NoneBelow(w, words)
    ensures NonDescending([w] + words)
  {
  }

  lemma FirstIsLeastWord(words: seq<ByteString>)
    requires NonDescending(words) && words != []
    ensures NoneBelow(words[0], words) && NonDescending(words[1..])
  {
    LessIsIrreflexive(words[0]);
  }

  lemma NoneBelowLess(w: ByteString, x: ByteString, words: seq<ByteString>)
    requires !Less(x, w) && NoneBelow(x, words)
    ensures NoneBelow(w, words)
  {
    forall y | y in words ensures !Less(y, w) {
      NotLessIsTransitive(w, x, y);
    }
  }

  lemma {:induction false} InsertIsSorted(w: ByteString, words: seq<ByteString>)
    requires NonDescending(words)
    ensures NonDescending(InsertWord(w, words))
  {
    hide NonDescending, NoneBelow;
    if words == [] {
      SingletonIsSorted(w);
    } else {
      FirstIsLeastWord(words);
      if !Less(words[0], w) {
        NoneBelowLess(w, words[0], words);
        ConsIsSorted(w, words);
      } else {
        InsertIsSorted(w, words[1..]);
        LessIsTotal(words[0], w);
        InsertedNoneBelow(words[0], w, words[1..]);
        ConsIsSorted(words[0], InsertWord(w, words[1..]));
      }
    }
  }

  lemma SingletonIsSorted(w: ByteString)
    ensures NonDescending([w] + [])
  {
  }

  lemma InsertedNoneBelow(least: ByteString, w: ByteString, words: seq<ByteString>)
    requires !Less(w, least) && NoneBelow(least, [least] + words)
    ensures NoneBelow(least, InsertWord(w, words))
  {
    forall x | x in InsertWord(w, words) ensures !Less(x, least) {
      assert x in multiset(InsertWord(w, words));
      assert x == w || x in [least] + words;
    }
  }

  lemma {:induction false} SortIsSorted(words: seq<ByteString>)
    ensures NonDescending(SortWords(words))
  {
    hide NonDescending;
    if words == [] {
      EmptyIsSorted();
    } else {
      SortIsSorted(words[1..]);
      InsertIsSorted(words[0], SortWords(words[1..]));
    }
  }

  lemma EmptyIsSorted()
    ensures NonDescending([])
  {
  }

  lemma LeastIsFirst(a: seq<ByteString>, b: seq<ByteString>)
    requires a != [] && b != [] && multiset(a) == multiset(b)
    requires NoneBelow(a[0], a) && NoneBelow(b[0], b)
    ensures a[0] == b[0]
  {
    assert a[0] in multiset(a) && b[0] in multiset(b);
    LessIsTotal(a[0], b[0]);
  }

  lemma TailBag(a: seq<ByteString>)
    requires a != []
    ensures multiset(a[1..]) == multiset(a) - multiset{a[0]}
  {
    assert a == [a[0]] + a[1..];
  }

  /** A bag of words has one sorted list. */
  lemma {:induction false} SortedIsUnique(a: seq<ByteString>, b: seq<ByteString>)
    requires NonDescending(a) && NonDescending(b) && multiset(a) == multiset(b)
    ensures a == b
  {
    hide NonDescending, NoneBelow;
    assert |a| == |multiset(a)| && |b| == |multiset(b)|;
    if a != [] {
      FirstIsLeastWord(a);
      FirstIsLeastWord(b);
      LeastIsFirst(a, b);
      TailBag(a);
      TailBag(b);
      SortedIsUnique(a[1..], b[1..]);
      assert a == [a[0]] + a[1..] && b == [b[0]] + b[1..];
    }
  }
}

/** Letter case, ASCII only. */
module Letters {

  predicate IsUpper(c: char) { 'A' <= c <= 'Z' }

  predicate IsLower(c: char) { 'a' <= c <= 'z' }

  function LowerChar(c: char): char { if IsUpper(c) then c - 'A' + 'a' else c }

  function Lower(s: string): string {
    seq(|s|, i requires 0 <= i < |s| => LowerChar(s[i]))
  }

  /** The same character, or the same letter in the other case. */
  predicate SameLetter(c: char, d: char) {
    || c == d
    || ('A' <= c <= 'Z' && d as int == c as int + 32)
    || ('a' <= c <= 'z' && d as int == c as int - 32)
  }

  /** Lower case leaves no capital and identifies the strings that differ in case only. */
  lemma LowerIgnoresCase(a: string, b: string)
    ensures Lower(a) == Lower(b) <==> |a| == |b| && forall i :: 0 <= i < |a| ==> SameLetter(a[i], b[i])
    ensures |Lower(a)| == |a| && forall i :: 0 <= i < |a| ==> SameLetter(a[i], Lower(a)[i]) && !IsUpper(Lower(a)[i])
  {
    if Lower(a) == Lower(b) {
      assert forall i :: 0 <= i < |a| ==> LowerChar(a[i]) == Lower(a)[i] == Lower(b)[i] == LowerChar(b[i]);
    }
  }
}
