/** Classes of characters. */
module Characters {

  predicate IsAlphanumeric(c: char) {
    'A' <= c <= 'Z' || 'a' <= c <= 'z' || '0' <= c <= '9'
  }

  predicate IsControl(c: char) {
    c as int < 32 || c as int == 127
  }
}
