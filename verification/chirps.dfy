/** The pure helpers of handler_chirp.go: the length limit and profanity
    filter applied to a new chirp (`validateChirp`, `getCleanedBody`) and the
    copy of stored chirps into response records (`populateChirps`). */
module Chirps {
  import opened Wrappers
  import opened Strings
  import Uuid

  /* ---------- validateChirp and getCleanedBody ---------- */

  /** The longest accepted chirp, in bytes. */
  const MaxChirpLength: nat := 140

  /** The replacement for a profane word. */
  const Censored: string := "****"

  /** The words `validateChirp` filters, in lower case. */
  const BadWords: set<string> := {"kerfuffle", "sharbert", "fornax"}

  /** `word` after filtering: the replacement when its lower-case form is in
      `badWords`, otherwise the word itself. */
  function CleanWord(word: string, badWords: set<string>): string
  {
    if Lower(word) in badWords then Censored else word
  }

  /** `getCleanedBody(body, badWords)`: the body split on single spaces,
      every bad word replaced, joined again with single spaces. */
  function GetCleanedBody(body: string, badWords: set<string>): string
  {
    var words := Split(body, ' ');
    Join(seq(|words|, i requires 0 <= i < |words| => CleanWord(words[i], badWords)), ' ')
  }

  /** Splitting the filtered body gives back the filtered words: the same
      number of words, each one replaced by "****" when its lower-case form is
      bad, and otherwise unchanged. */
  lemma CleanedWords(body: string, badWords: set<string>)
    ensures |Split(GetCleanedBody(body, badWords), ' ')| == |Split(body, ' ')|
    ensures forall i :: 0 <= i < |Split(body, ' ')| ==>
      Split(GetCleanedBody(body, badWords), ' ')[i]
        == (if Lower(Split(body, ' ')[i]) in badWords then "****" else Split(body, ' ')[i])
  {
    var words := Split(body, ' ');
    SplitJoin(seq(|words|, i requires 0 <= i < |words| => CleanWord(words[i], badWords)), ' ');
  }

  /** A body with no bad word comes back unchanged, spacing included. */
  lemma NoBadWordUnchanged(body: string, badWords: set<string>)
    requires forall i :: 0 <= i < |Split(body, ' ')| ==> Lower(Split(body, ' ')[i]) !in badWords
    ensures GetCleanedBody(body, badWords) == body
  {
    var words := Split(body, ' ');
    var cleanedWords := seq(|words|, i requires 0 <= i < |words| => CleanWord(words[i], badWords));
    assert cleanedWords == words;
    JoinSplit(body, ' ');
  }

  /** Filtering twice is filtering once, as long as the replacement is not
      itself a bad word. */
  lemma CleanIdempotent(body: string, badWords: set<string>)
    requires Censored !in badWords
    ensures GetCleanedBody(GetCleanedBody(body, badWords), badWords) == GetCleanedBody(body, badWords)
  {
    CensoredLower();
    var cleaned := GetCleanedBody(body, badWords);
    var words := Split(cleaned, ' ');
    CleanedWords(body, badWords);
    assert forall i :: 0 <= i < |words| ==> Lower(words[i]) !in badWords;
    NoBadWordUnchanged(cleaned, badWords);
  }

  /** The replacement text is already in lower case. */
  lemma CensoredLower()
    ensures Lower(Censored) == Censored
  {
  }

  /** Joining shorter pieces gives a shorter string. */
  lemma {:induction false} JoinByteLen(short: seq<string>, long: seq<string>, sep: char)
    requires |short| == |long|
    requires forall i :: 0 <= i < |short| ==> ByteLen(short[i]) <= ByteLen(long[i])
    ensures ByteLen(Join(short, sep)) <= ByteLen(Join(long, sep))
    decreases |short|
  {
    if |short| > 1 {
      JoinByteLen(short[1..], long[1..], sep);
      ByteLenConcat(short[0] + [sep], Join(short[1..], sep));
      ByteLenConcat(short[0], [sep]);
      ByteLenConcat(long[0] + [sep], Join(long[1..], sep));
      ByteLenConcat(long[0], [sep]);
    }
  }

  /** When the bad words are ASCII and every one is at least as long as the
      replacement, filtering never makes a body longer in bytes. (With
      non-ASCII bad words Go's `strings.ToLower`, which lengthens some
      characters, could match a word shorter than the replacement.) */
  lemma CleanByteLen(body: string, badWords: set<string>)
    requires forall w :: w in badWords ==> IsAscii(w)
    requires forall w :: w in badWords ==> ByteLen(Censored) <= ByteLen(w)
    ensures ByteLen(GetCleanedBody(body, badWords)) <= ByteLen(body)
  {
    var words := Split(body, ' ');
    var cleanedWords := seq(|words|, i requires 0 <= i < |words| => CleanWord(words[i], badWords));
    forall i | 0 <= i < |words|
      ensures ByteLen(cleanedWords[i]) <= ByteLen(words[i])
    {
      LowerByteLen(words[i]);
    }
    JoinByteLen(cleanedWords, words, ' ');
    JoinSplit(body, ' ');
  }

  /** The fixed list is plain ASCII. */
  lemma BadWordsAscii()
    ensures forall w :: w in BadWords ==> IsAscii(w)
  {
    assert IsAscii("kerfuffle") && IsAscii("sharbert") && IsAscii("fornax");
  }

  /** Every word of the fixed list is longer than the replacement. */
  lemma BadWordsLong()
    ensures forall w :: w in BadWords ==> ByteLen(Censored) <= ByteLen(w)
  {
    assert IsAscii(Censored);
    AsciiByteLen(Censored);
    forall w | w in BadWords
      ensures ByteLen(Censored) <= ByteLen(w)
    {
      assert |w| >= 4;
      ByteLenAtLeastLength(w);
    }
  }

  datatype ChirpError = TooLong

  function ChirpMessage(e: ChirpError): string
  {
    "Chirp is too long"
  }

  /** `validateChirp(body)`: a body longer than 140 bytes is refused with an
      empty result; any other body is accepted and filtered against the fixed
      list, and the filtered body still fits the limit. */
  function ValidateChirp(body: string): (r: Ret<string, ChirpError>)
    ensures !r.Ok() <==> ByteLen(body) > MaxChirpLength
    ensures !r.Ok() ==> r == Ret("", Some(TooLong))
    ensures r.Ok() ==> r.value == GetCleanedBody(body, BadWords)
    ensures r.Ok() ==> ByteLen(r.value) <= MaxChirpLength
  {
    if ByteLen(body) > MaxChirpLength then Ret("", Some(TooLong))
    else
      BadWordsAscii();
      BadWordsLong();
      CleanByteLen(body, BadWords);
      Ret(GetCleanedBody(body, BadWords), None)
  }

  /** A run of `n` copies of `c` takes `n` times the width of `c`. */
  lemma {:induction false} ByteLenRepeat(c: char, n: nat)
    ensures ByteLen(seq(n, _ => c)) == n * Utf8Width(c)
  {
    if n > 0 {
      assert seq(n, _ => c)[1..] == seq(n - 1, _ => c);
      ByteLenRepeat(c, n - 1);
    }
  }

  /** The limit is inclusive: a body of exactly 140 bytes is accepted, one of
      141 is not. */
  lemma LimitInclusive()
    ensures ValidateChirp(seq(140, _ => 'a')).Ok()
    ensures ValidateChirp(seq(141, _ => 'a')) == Ret("", Some(TooLong))
  {
    ByteLenRepeat('a', 140);
    ByteLenRepeat('a', 141);
  }

  /** The limit counts bytes, not characters: 47 euro signs are 141 bytes. */
  lemma LimitCountsBytes()
    ensures ValidateChirp(seq(47, _ => '€')) == Ret("", Some(TooLong))
  {
    ByteLenRepeat('€', 47);
  }

  /** The filtered body is the join of the filtered words. */
  lemma CleanedIsJoin(body: string, badWords: set<string>, words: seq<string>, cleanedWords: seq<string>)
    requires Split(body, ' ') == words
    requires |cleanedWords| == |words|
    requires forall i :: 0 <= i < |words| ==> cleanedWords[i] == CleanWord(words[i], badWords)
    ensures GetCleanedBody(body, badWords) == Join(cleanedWords, ' ')
  {
    assert cleanedWords == seq(|words|, i requires 0 <= i < |words| => CleanWord(words[i], badWords));
  }

  /** Three words joined with single spaces. */
  lemma JoinThree(a: string, b: string, c: string)
    ensures Join([a, b, c], ' ') == a + " " + b + " " + c
  {
    assert Join([a, b, c][1..], ' ') == b + " " + c;
  }

  /** A three-word body is filtered word by word. */
  lemma CleanThreeWords(a: string, b: string, c: string, badWords: set<string>)
    requires ' ' !in a && ' ' !in b && ' ' !in c
    ensures GetCleanedBody(a + " " + b + " " + c, badWords)
      == CleanWord(a, badWords) + " " + CleanWord(b, badWords) + " " + CleanWord(c, badWords)
  {
    var body := a + " " + b + " " + c;
    assert Split(body, ' ') == [a, b, c] by {
      JoinThree(a, b, c);
      SplitJoin([a, b, c], ' ');
    }
    var cleanedWords := [CleanWord(a, badWords), CleanWord(b, badWords), CleanWord(c, badWords)];
    CleanedIsJoin(body, badWords, [a, b, c], cleanedWords);
    JoinThree(CleanWord(a, badWords), CleanWord(b, badWords), CleanWord(c, badWords));
  }

  /** Matching ignores case but not punctuation: "Kerfuffle" is replaced,
      "fornax!" is kept. */
  lemma CleanWordExamples()
    ensures CleanWord("I", BadWords) == "I"
    ensures CleanWord("Kerfuffle", BadWords) == Censored
    ensures CleanWord("fornax!", BadWords) == "fornax!"
  {
    assert Lower("I") == "i";
    assert Lower("Kerfuffle") == "kerfuffle";
    assert Lower("fornax!") == "fornax!";
  }

  /** The same words inside a body. */
  lemma CleanExample()
    ensures GetCleanedBody("I Kerfuffle fornax!", BadWords) == "I **** fornax!"
  {
    assert "I Kerfuffle fornax!" == "I" + " " + "Kerfuffle" + " " + "fornax!";
    assert "I **** fornax!" == "I" + " " + "****" + " " + "fornax!";
    CleanThreeWords("I", "Kerfuffle", "fornax!", BadWords);
    CleanWordExamples();
  }

  /* ---------- populateChirps ---------- */

  /** A stored chirp, as the database layer returns it. Times are instants in
      an arbitrary unit. */
  datatype DbChirp = DbChirp(id: Uuid.Uuid, createdAt: int, updatedAt: int, body: string, userID: Uuid.Uuid)

  /** A chirp as the API returns it. */
  datatype Chirp = Chirp(id: Uuid.Uuid, createdAt: int, updatedAt: int, body: string, userID: Uuid.Uuid)

  /** Go's zero `Chirp`, which `make` fills the result slice with. */
  const ZeroChirp: Chirp := Chirp(Uuid.Nil, 0, 0, "", Uuid.Nil)

  /** The field-by-field copy of a stored chirp into the response record. */
  function FromDb(c: DbChirp): (r: Chirp)
    ensures r.id == c.id && r.createdAt == c.createdAt && r.updatedAt == c.updatedAt
    ensures r.body == c.body && r.userID == c.userID
  {
    Chirp(c.id, c.createdAt, c.updatedAt, c.body, c.userID)
  }

  /** The reference order: every stored chirp converted, in place. */
  function Ascending(dbChirps: seq<DbChirp>): (chirps: seq<Chirp>)
    ensures |chirps| == |dbChirps|
  {
    seq(|dbChirps|, i requires 0 <= i < |dbChirps| => FromDb(dbChirps[i]))
  }

  function Reverse<T>(s: seq<T>): (r: seq<T>)
    ensures |r| == |s|
  {
    seq(|s|, i requires 0 <= i < |s| => s[|s| - 1 - i])
  }

  /** `populateChirps(dbChirps, isDescending)`: a slice of the same length,
      filled front to back with the converted chirps, or back to front when
      descending, so that the descending answer is the ascending one
      reversed. */
  method PopulateChirps(dbChirps: seq<DbChirp>, isDescending: bool) returns (chirps: seq<Chirp>)
    ensures |chirps| == |dbChirps|
    ensures !isDescending ==> forall i :: 0 <= i < |dbChirps| ==> chirps[i] == FromDb(dbChirps[i])
    ensures isDescending ==> forall i :: 0 <= i < |dbChirps| ==> chirps[|dbChirps| - 1 - i] == FromDb(dbChirps[i])
    ensures chirps == if isDescending then Reverse(Ascending(dbChirps)) else Ascending(dbChirps)
  {
    var n := |dbChirps|;
    var arr := new Chirp[n](_ => ZeroChirp);
    if isDescending {
      for i := 0 to n
        invariant forall j :: 0 <= j < i ==> arr[n - 1 - j] == FromDb(dbChirps[j])
      {
        arr[n - 1 - i] := FromDb(dbChirps[i]);
      }
    } else {
      for i := 0 to n
        invariant forall j :: 0 <= j < i ==> arr[j] == FromDb(dbChirps[j])
      {
        arr[i] := FromDb(dbChirps[i]);
      }
    }
    chirps := arr[..];
  }
}
