/** Static balance and layout configuration of the game object (game.js:2-30). */
module Config {
  /** Grid dimensions. */
  const Width: int := 40
  const Height: int := 24

  /** Damage multipliers and the potion heal amount. */
  const HeroBaseDamage: int := 20
  const EnemyBaseDamage: int := 10
  const PotionHeal: int := 50

  /** Population counts. */
  const EnemyCount: nat := 10
  const SwordCount: nat := 2
  const PotionCount: nat := 10

  /** Stats a freshly placed hero or enemy starts with. */
  const StartHealth: int := 100
  const StartMaxHealth: int := 100
  const StartAttackPower: int := 1
}
