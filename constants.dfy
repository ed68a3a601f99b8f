/** Tuning constants of the play field (constants.ts). */
module Constants {

  /** Width of the player's hitbox, in percent of the field width. */
  const PLAYER_SIZE: real := 18.0

  /** Width and height of a falling item's hitbox. */
  const ITEM_SIZE: real := 10.0

  /** Minimum time between two spawns, in milliseconds. */
  const SPAWN_RATE_MS: real := 600.0

  /** The glyphs a food item is drawn with. */
  const FOOD_ITEMS: seq<string> := [
    "\U{1F34E}", "\U{1F347}", "\U{1F34C}", "\U{1F351}",
    "\U{1F352}", "\U{1F9C0}", "\U{1F369}", "\U{1F36A}"]

  /** The glyph every bomb is drawn with. */
  const BOMB_ITEM: string := "\U{1F4A3}"
}
