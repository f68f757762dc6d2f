/** Extraction of the suggested topics from the language model's free-text
    reply (`DataLoader.extract_related_topics`). */
module Topics {
  import opened Text

  /** Python's `line.startswith("-")`. */
  predicate IsBullet(line: string) {
    |line| > 0 && line[0] == '-'
  }

  /** What one line contributes: its stripped text when that starts with
      the bullet marker, nothing otherwise. */
  function LineTopic(line: string): (topic: seq<string>)
    ensures |topic| <= 1
    ensures forall k | 0 <= k < |topic| :: IsBullet(topic[k]) && Stripped(topic[k])
  {
    var t := Strip(line);
    if IsBullet(t) then [t] else []
  }

  /** An already stripped line is a topic exactly when it is bulleted. */
  lemma LineTopicOfStripped(line: string)
    requires Stripped(line)
    ensures LineTopic(line) == if IsBullet(line) then [line] else []
  {
    StripOfStripped(line);
  }

  /** The stripped lines that start with the bullet marker, in line order. */
  function KeepBullets(lines: seq<string>): (topics: seq<string>)
    ensures |topics| <= |lines|
    ensures forall k | 0 <= k < |topics| :: IsBullet(topics[k]) && Stripped(topics[k])
  {
    if lines == [] then [] else LineTopic(lines[0]) + KeepBullets(lines[1..])
  }

  /** The topics named in a reply: one per line of the reply whose stripped
      text begins with '-', kept with the marker and without surrounding
      whitespace. Defined for every reply, however malformed. */
  function ExtractRelatedTopics(response: string): (topics: seq<string>)
    ensures forall k | 0 <= k < |topics| :: IsBullet(topics[k]) && Stripped(topics[k])
    ensures |topics| <= multiset(response)['\n'] + 1
  {
    SplitCount(response, '\n');
    KeepBullets(Split(response, '\n'))
  }

  /** Extraction works line by line: the topics of the earlier lines come
      first, followed by those of the later lines. */
  lemma {:induction false} KeepBulletsAppend(a: seq<string>, b: seq<string>)
    ensures KeepBullets(a + b) == KeepBullets(a) + KeepBullets(b)
  {
    if a == [] {
      assert a + b == b;
    } else {
      calc {
        KeepBullets(a + b);
      == { assert (a + b)[0] == a[0] && (a + b)[1..] == a[1..] + b; }
        LineTopic(a[0]) + KeepBullets(a[1..] + b);
      == { KeepBulletsAppend(a[1..], b); }
        LineTopic(a[0]) + (KeepBullets(a[1..]) + KeepBullets(b));
      ==
        KeepBullets(a) + KeepBullets(b);
      }
    }
  }

  /** A string is a topic exactly when some line strips to it and it starts
      with the bullet marker. */
  lemma {:induction false} KeepBulletsMember(lines: seq<string>, t: string)
    ensures t in KeepBullets(lines) <==>
              exists k | 0 <= k < |lines| :: IsBullet(Strip(lines[k])) && Strip(lines[k]) == t
  {
    if lines != [] {
      KeepBulletsMember(lines[1..], t);
      if exists k | 0 <= k < |lines| :: IsBullet(Strip(lines[k])) && Strip(lines[k]) == t {
        var k :| 0 <= k < |lines| && IsBullet(Strip(lines[k])) && Strip(lines[k]) == t;
        if k > 0 { assert lines[1..][k - 1] == lines[k]; }
      }
      if exists k | 0 <= k < |lines| - 1 :: IsBullet(Strip(lines[1..][k])) && Strip(lines[1..][k]) == t {
        var k :| 0 <= k < |lines| - 1 && IsBullet(Strip(lines[1..][k])) && Strip(lines[1..][k]) == t;
        assert lines[1..][k] == lines[k + 1];
      }
    }
  }

  /** No topics exactly when no line strips to something starting with '-'. */
  lemma {:induction false} KeepBulletsEmpty(lines: seq<string>)
    ensures KeepBullets(lines) == [] <==> forall k | 0 <= k < |lines| :: !IsBullet(Strip(lines[k]))
  {
    if lines != [] {
      var line := Strip(lines[0]);
      var rest := lines[1..];
      KeepBulletsEmpty(rest);
      if forall k | 0 <= k < |lines| :: !IsBullet(Strip(lines[k])) {
        assert !IsBullet(line);
        forall k | 0 <= k < |rest| ensures !IsBullet(Strip(rest[k])) {
          assert rest[k] == lines[k + 1];
        }
      } else if !IsBullet(line) {
        var k :| 0 <= k < |lines| && IsBullet(Strip(lines[k]));
        assert lines[k] == rest[k - 1];
      }
    }
  }

  /** A reply yields no topics exactly when none of its lines strips to
      something starting with '-'. */
  lemma ExtractNoBullets(response: string)
    ensures ExtractRelatedTopics(response) == [] <==>
              forall line | line in Split(response, '\n') :: !IsBullet(Strip(line))
  {
    var lines := Split(response, '\n');
    KeepBulletsEmpty(lines);
    if forall k | 0 <= k < |lines| :: !IsBullet(Strip(lines[k])) {
      forall line | line in lines ensures !IsBullet(Strip(line)) {
        var k :| 0 <= k < |lines| && lines[k] == line;
      }
    }
  }

  /** For a reply made of the given lines, the topics are those lines'
      topics, in line order. */
  lemma ExtractFromLines(lines: seq<string>)
    requires |lines| >= 1 && forall k | 0 <= k < |lines| :: '\n' !in lines[k]
    ensures ExtractRelatedTopics(Join(lines, '\n')) == KeepBullets(lines)
  {
    SplitJoin(lines, '\n');
  }
}
