/** The score-tier remark shown on the game-over screen (services/geminiService.ts). */
module GeminiService {
  import opened Types

  /** The six bands the final score is sorted into. */
  datatype Tier = NothingEaten | LightSnack | Tasty | Wow | Incredible | Legendary

  /** Which band a score belongs to, stated as ranges rather than as a chain of guards. */
  function TierOf(score: int): (t: Tier)
    ensures t == NothingEaten <==> score == 0
    ensures t == LightSnack <==> score < 0 || 1 <= score <= 5
    ensures t == Tasty <==> 6 <= score <= 15
    ensures t == Wow <==> 16 <= score <= 30
    ensures t == Incredible <==> 31 <= score <= 50
    ensures t == Legendary <==> 50 < score
  {
    if score < 0 then LightSnack
    else if score == 0 then NothingEaten
    else if score <= 5 then LightSnack
    else if score <= 15 then Tasty
    else if score <= 30 then Wow
    else if score <= 50 then Incredible
    else Legendary
  }

  /** The canned text that precedes the character's name in a tier's message. */
  function Opening(t: Tier): string
  {
    match t
    case NothingEaten => "Oh no! "
    case LightSnack => ""
    case Tasty => "Tasty! "
    case Wow => "Wow! "
    case Incredible => "Incredible! "
    case Legendary => "Legendary! You and "
  }

  /** The canned text that follows the character's name in a tier's message. */
  function Closing(t: Tier): string
  {
    match t
    case NothingEaten => " didn't get to eat anything. Watch out for those bombs!"
    case LightSnack => " had a light snack. Good warm-up, but I know you can eat more!"
    case Tasty => " is feeling good. That was a solid meal!"
    case Wow => " has a serious appetite today! Great reflexes!"
    case Incredible => " is basically a vacuum cleaner! Amazing score!"
    case Legendary => " are the ultimate eating champions! Unbeatable!"
  }

  function Message(t: Tier, name: string): string
  {
    Opening(t) + name + Closing(t)
  }

  /** The remark for a finished run, as the guarded returns of the service pick it. */
  function GenerateTrainerFeedback(character: Character, score: int): (r: string)
    ensures r == Message(TierOf(score), character.name)
  {
    if score == 0 then Message(NothingEaten, character.name)
    else if score <= 5 then Message(LightSnack, character.name)
    else if score <= 15 then Message(Tasty, character.name)
    else if score <= 30 then Message(Wow, character.name)
    else if score <= 50 then Message(Incredible, character.name)
    else Message(Legendary, character.name)
  }

  /** `sub` appears in `s` starting at index `i`. */
  predicate OccursAt(sub: string, s: string, i: nat)
  {
    i + |sub| <= |s| && s[i..i + |sub|] == sub
  }

  /** The result always quotes the character's name, at a position fixed by the tier. */
  lemma FeedbackMentionsName(character: Character, score: int)
    ensures exists i: nat :: OccursAt(character.name, GenerateTrainerFeedback(character, score), i)
  {
    var r := GenerateTrainerFeedback(character, score);
    var i := |Opening(TierOf(score))|;
    assert r[i..i + |character.name|] == character.name;
    assert OccursAt(character.name, r, i);
  }

  /** Two characters with the same name receive the same remark for every score. */
  lemma FeedbackDependsOnlyOnName(c1: Character, c2: Character, score: int)
    requires c1.name == c2.name
    ensures GenerateTrainerFeedback(c1, score) == GenerateTrainerFeedback(c2, score)
  {
  }

  /** Number of characters of canned text in a tier's message. */
  function CannedLength(t: Tier): nat
  {
    match t
    case NothingEaten => 62
    case LightSnack => 62
    case Tasty => 47
    case Wow => 51
    case Incredible => 58
    case Legendary => 66
  }

  lemma MessageLength(t: Tier, name: string)
    ensures |Message(t, name)| == CannedLength(t) + |name|
  {
  }

  /** The zero-score and light-snack messages have equal length but end differently. */
  lemma ZeroAndSnackDiffer(name: string)
    ensures Message(NothingEaten, name) != Message(LightSnack, name)
  {
    var zero, snack := Closing(NothingEaten), Closing(LightSnack);
    assert zero[|zero| - 2] == 's' && snack[|snack| - 2] == 'e';
    var m1, m2 := Message(NothingEaten, name), Message(LightSnack, name);
    assert m1 == (Opening(NothingEaten) + name) + zero;
    assert m2 == (Opening(LightSnack) + name) + snack;
    assert m1[|m1| - 2] == 's';
    assert m2[|m2| - 2] == 'e';
  }

  /** For a fixed name the six messages are pairwise different, so the result names its tier. */
  lemma MessagesDistinct(t1: Tier, t2: Tier, name: string)
    requires t1 != t2
    ensures Message(t1, name) != Message(t2, name)
  {
    MessageLength(t1, name);
    MessageLength(t2, name);
    if CannedLength(t1) == CannedLength(t2) {
      assert t1 in {NothingEaten, LightSnack} && t2 in {NothingEaten, LightSnack};
      ZeroAndSnackDiffer(name);
    }
  }

  /** Every score, negative ones included, yields exactly one of the six messages. */
  lemma FeedbackIsOneOfSix(character: Character, score: int)
    ensures var r := GenerateTrainerFeedback(character, score);
      exists t :: r == Message(t, character.name)
    ensures forall t :: GenerateTrainerFeedback(character, score) == Message(t, character.name) ==> t == TierOf(score)
  {
    var r := GenerateTrainerFeedback(character, score);
    assert r == Message(TierOf(score), character.name);
    forall t | r == Message(t, character.name)
      ensures t == TierOf(score)
    {
      if t != TierOf(score) {
        MessagesDistinct(t, TierOf(score), character.name);
      }
    }
  }

  /** Score 0 gets the sympathetic message; score 100 gets the top tier. */
  lemma FeedbackExamples(character: Character)
    ensures GenerateTrainerFeedback(character, 0)
      == "Oh no! " + character.name + " didn't get to eat anything. Watch out for those bombs!"
    ensures GenerateTrainerFeedback(character, 100)
      == "Legendary! You and " + character.name + " are the ultimate eating champions! Unbeatable!"
    ensures GenerateTrainerFeedback(character, -3) == GenerateTrainerFeedback(character, 1)
  {
  }
}
