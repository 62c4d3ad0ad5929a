# The Dafny model of lscov and of the libxml2 components it is used on.
includes = ["**/*.dfy"]
