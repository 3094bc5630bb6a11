/**
  The three utilities both tools offer: the values of the reading table's
  utility box and the keys of the dictation tool's dictionary.
 */
module UtilityNames {

  const Gas: string := "MVM Gas"
  const Electricity: string := "MVM Electricity"
  const Water: string := "Vízművek Water"

}
