/** Fixed settings of lib/config.py that the modelled core reads. */
module Config {

  /** `PROMPT_ENHANCEMENT_BATCH_SIZE`: bodies sent per remote call. */
  const BatchSize: nat := 10

  /** `VALIDATION_SPLIT_RATIO` = 0.1, written as the fraction 1/10. */
  const ValidationNum: nat := 1
  const ValidationDen: nat := 10

  /** `GENERIC_PROMPTS`: lower-cased, trimmed user prompts that carry no intent. */
  const GenericPrompts: set<string> := {
    "write an email in your tone",
    "write an email in your tone.",
    "write an email with your tone"
  }
}
