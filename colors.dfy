/**
 * The terminal colour escapes of the colorama library. Only their distinctness
 * matters to the model; the values are the ANSI foreground codes.
 */
module Colors {
  const RED: string := "\U{1B}[31m"
  const GREEN: string := "\U{1B}[32m"
  const BLUE: string := "\U{1B}[34m"
  const CYAN: string := "\U{1B}[36m"
  const WHITE: string := "\U{1B}[37m"
}
